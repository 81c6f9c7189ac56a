/** qsort's introsort: quicksort by medians of three, heap sort when that goes badly, insertion sort at the end. */
module Introsort {
  import opened Ordering
  import opened Powers

  /** floor(log2 n), 0 for 0. */
  function Log2(n: nat): (r: nat)
    ensures n > 0 ==> Pow(2, r) <= n < Pow(2, r + 1)
  {
    if n < 2 then 0 else 1 + Log2(n / 2)
  }

  lemma Log2Monotone(m: nat, n: nat)
    requires m <= n
    ensures Log2(m) <= Log2(n)
  {
    if m > 0 && Log2(n) < Log2(m) {
      PowMonotone(2, Log2(n) + 1, Log2(m));
    }
  }

  /** A power of two below n has an exponent of at most log2 n. */
  lemma AtMostLog2(k: nat, n: nat)
    requires n > 0 && Pow(2, k) <= n
    ensures k <= Log2(n)
  {
    var top := Log2(n) + 1;
    PowMonotone(2, top, if k < top then top else k);
  }

  /** The comparator of one sort, and how often it has been called. */
  class Sorter<T(!new)> {
    const cmp: (T, T) -> int
    ghost var calls: nat

    constructor (cmp: (T, T) -> int)
      ensures this.cmp == cmp && calls == 0
    {
      this.cmp := cmp;
      calls := 0;
    }

    /** Every comparison of the sort is a call of this method. */
    method Compare(x: T, y: T) returns (order: int)
      modifies this
      ensures order == Ordering.Compare(cmp, x, y) && calls == old(calls) + 1
    {
      calls := calls + 1;
      order := Ordering.Compare(cmp, x, y);
    }
  }

  method Swap<T>(a: array<T>, i: nat, j: nat)
    requires i < a.Length && j < a.Length
    modifies a
    ensures a[..] == old(a[..])[i := old(a[j])][j := old(a[i])]
  {
    a[i], a[j] := a[j], a[i];
  }

  // ---- insertion sort ---------------------------------------------------------------------------------

  /** Sorted but for element j, which comes before everything after it. */
  ghost predicate Inserting<T>(cmp: (T, T) -> int, s: seq<T>, lo: nat, hi: nat, j: nat)
  {
    && lo <= j < hi <= |s|
    && (forall p, q :: lo <= p < q < hi && p != j && q != j ==> Le(cmp, s[p], s[q]))
    && (forall q :: j < q < hi ==> Le(cmp, s[j], s[q]))
  }

  lemma InsertStarts<T>(cmp: (T, T) -> int, s: seq<T>, lo: nat, hi: nat)
    requires lo < hi <= |s| && Sorted(cmp, s, lo, hi - 1)
    ensures Inserting(cmp, s, lo, hi, hi - 1)
  {
    hide Le, Compare;
  }

  lemma InsertStep<T(!new)>(cmp: (T, T) -> int, s: seq<T>, lo: nat, hi: nat, j: nat)
    requires TotalPreorder(cmp) && Inserting(cmp, s, lo, hi, j) && j > lo && Compare(cmp, s[j - 1], s[j]) > 0
    ensures Inserting(cmp, s[j - 1 := s[j]][j := s[j - 1]], lo, hi, j - 1)
  {
    Compared(cmp, s[j - 1], s[j]);
    hide Compare, Le, TotalPreorder;
  }

  lemma InsertEnds<T(!new)>(cmp: (T, T) -> int, s: seq<T>, lo: nat, hi: nat, j: nat)
    requires TotalPreorder(cmp) && Inserting(cmp, s, lo, hi, j) && (j == lo || Le(cmp, s[j - 1], s[j]))
    ensures Sorted(cmp, s, lo, hi)
  {
    hide Compare, Le, TotalPreorder;
    forall p, q | lo <= p < q < hi && q < |s| ensures Le(cmp, s[p], s[q]) {
      if q == j && p < j - 1 { Trans(cmp, s[p], s[j - 1], s[j]); }
    }
  }

  /** n (n - 1) / 2 */
  function Triangle(n: nat): nat
  {
    if n == 0 then 0 else Triangle(n - 1) + (n - 1)
  }

  lemma TriangleNext(n: nat)
    ensures Triangle(n + 1) == Triangle(n) + n && Triangle(1) == 0 == Triangle(0)
  {
  }

  /** The range s0 on the way to its element i in place: that element has come down to j. */
  ghost predicate Sinking<T>(cmp: (T, T) -> int, s0: seq<T>, s: seq<T>, base: nat, i: nat, j: nat, hi: nat)
  {
    base + i < hi <= |s| && Inserting(cmp, s, base, base + i + 1, base + j) && Rearranged(s0, s, base, hi)
  }

  lemma SinkStarts<T>(cmp: (T, T) -> int, s: seq<T>, base: nat, i: nat, hi: nat)
    requires base + i < hi <= |s| && Sorted(cmp, s, base, base + i)
    ensures Sinking(cmp, s, s, base, i, i, hi)
  {
    hide Rearranged, Inserting, Sorted;
    InsertStarts(cmp, s, base, base + i + 1);
    SameRearranged(s, base, hi);
  }

  lemma SinkStep<T(!new)>(cmp: (T, T) -> int, s0: seq<T>, s: seq<T>, base: nat, i: nat, j: nat, hi: nat)
    requires TotalPreorder(cmp) && Sinking(cmp, s0, s, base, i, j, hi) && 0 < j <= i
    requires Compare(cmp, s[base + j - 1], s[base + j]) > 0
    ensures Sinking(cmp, s0, s[base + j - 1 := s[base + j]][base + j := s[base + j - 1]], base, i, j - 1, hi)
  {
    hide Rearranged, Inserting, TotalPreorder, Compare;
    InsertStep(cmp, s, base, base + i + 1, base + j);
    SwappedToo(s0, s, base + j - 1, base + j, base, hi);
  }

  lemma SinkEnds<T(!new)>(cmp: (T, T) -> int, s0: seq<T>, s: seq<T>, base: nat, i: nat, j: nat, hi: nat)
    requires TotalPreorder(cmp) && Sinking(cmp, s0, s, base, i, j, hi) && j <= i
    requires j == 0 || Compare(cmp, s[base + j - 1], s[base + j]) <= 0
    ensures Sorted(cmp, s, base, base + i + 1) && Rearranged(s0, s, base, hi)
  {
    hide Rearranged, Inserting, TotalPreorder, Compare, Sorted;
    if j > 0 { Compared(cmp, s[base + j - 1], s[base + j]); }
    InsertEnds(cmp, s, base, base + i + 1, base + j);
  }

  /** Element i sinks to its place among those below it. */
  method Sink<T(!new)>(sorter: Sorter<T>, a: array<T>, base: nat, i: nat, ghost hi: nat)
    requires TotalPreorder(sorter.cmp) && base + i < hi <= a.Length && Sorted(sorter.cmp, a[..], base, base + i)
    modifies a, sorter
    ensures Sorted(sorter.cmp, a[..], base, base + i + 1) && Rearranged(old(a[..]), a[..], base, hi)
    ensures sorter.calls <= old(sorter.calls) + i
  {
    hide Rearranged, TotalPreorder, Sinking, Sorted, Compare;
    ghost var cmp, s0 := sorter.cmp, a[..];
    SinkStarts(cmp, s0, base, i, hi);
    var j := i;
    while j > 0
      invariant 0 <= j <= i && Sinking(cmp, s0, a[..], base, i, j, hi) && sorter.calls == old(sorter.calls) + (i - j)
    {
      var order := sorter.Compare(a[base + j - 1], a[base + j]);
      if order <= 0 {
        break;
      }
      SinkStep(cmp, s0, a[..], base, i, j, hi);
      Swap(a, base + j - 1, base + j);
      j := j - 1;
    }
    SinkEnds(cmp, s0, a[..], base, i, j, hi);
  }

  method InsertionSort<T(!new)>(sorter: Sorter<T>, a: array<T>, base: nat, n: nat)
    requires TotalPreorder(sorter.cmp) && base + n <= a.Length
    modifies a, sorter
    ensures Sorted(sorter.cmp, a[..], base, base + n) && Rearranged(old(a[..]), a[..], base, base + n)
    ensures sorter.calls <= old(sorter.calls) + Triangle(n)
  {
    hide Compare, Rearranged, TotalPreorder, Sorted, Triangle;
    ghost var cmp, s0 := sorter.cmp, a[..];
    SameRearranged(s0, base, base + n);
    OneSorted(cmp, s0, base);
    TriangleNext(0);
    var i := 1;
    while i < n
      invariant n == 0 || i <= n
      invariant Sorted(cmp, a[..], base, base + i) && Rearranged(s0, a[..], base, base + n)
      invariant sorter.calls <= old(sorter.calls) + Triangle(i) && (n == 0 ==> i == 1)
    {
      ghost var s := a[..];
      Sink(sorter, a, base, i, base + n);
      RearrangedTwice(s0, s, a[..], base, base + n);
      TriangleNext(i);
      i := i + 1;
    }
    FewSorted(cmp, a[..], base, i, n);
  }

  lemma OneSorted<T>(cmp: (T, T) -> int, s: seq<T>, lo: nat)
    ensures Sorted(cmp, s, lo, lo + 1)
  {
  }

  lemma FewSorted<T>(cmp: (T, T) -> int, s: seq<T>, lo: nat, i: nat, n: nat)
    requires Sorted(cmp, s, lo, lo + i) && n <= i
    ensures Sorted(cmp, s, lo, lo + n)
  {
  }

  /** Insertion sort of a short run costs a few comparisons an element. */
  lemma {:induction false} TriangleSmall(n: nat)
    requires n <= 12
    ensures Triangle(n) <= 6 * n
  {
    TriangleIs(n);
    if n <= 12 {
      MulMonotone(n - 1, 11, n);
    }
  }

  lemma {:induction false} TriangleIs(n: nat)
    ensures 2 * Triangle(n) == n * (n - 1)
  {
    if n == 0 {
    } else {
      TriangleIs(n - 1);
    }
  }

  // ---- heap sort ------------------------------------------------------------------------------------------

  predicate Child(k: nat, c: nat)
  {
    c == 2 * k + 1 || c == 2 * k + 2
  }

  /** Of the first n elements, every one from `from` on comes no earlier than its children. */
  ghost predicate HeapFrom<T>(cmp: (T, T) -> int, s: seq<T>, base: nat, from: nat, n: nat)
    requires base + n <= |s|
  {
    forall k: nat, c: nat :: Child(k, c) && from <= k && c < n ==> Le(cmp, s[base + c], s[base + k])
  }

  /** So for all but element r, whose children come no later than its parent. */
  ghost predicate Sifting<T>(cmp: (T, T) -> int, s: seq<T>, base: nat, from: nat, n: nat, r: nat)
    requires base + n <= |s|
  {
    && (forall k: nat, c: nat :: Child(k, c) && from <= k && k != r && c < n ==> Le(cmp, s[base + c], s[base + k]))
    && (forall k: nat, c: nat :: Child(k, r) && from <= k && Child(r, c) && c < n ==> Le(cmp, s[base + c], s[base + k]))
  }

  lemma SiftStarts<T>(cmp: (T, T) -> int, s: seq<T>, base: nat, r: nat, n: nat)
    requires base + n <= |s| && HeapFrom(cmp, s, base, r + 1, n)
    ensures Sifting(cmp, s, base, r, n, r)
  {
    hide Le, Compare;
  }

  /** Child c of r comes no earlier than the other, if there is another. */
  ghost predicate Latest<T>(cmp: (T, T) -> int, s: seq<T>, base: nat, n: nat, r: nat, c: nat)
    requires base + n <= |s|
  {
    Child(r, c) && c < n && forall d: nat :: Child(r, d) && d < n ==> Le(cmp, s[base + d], s[base + c])
  }

  lemma LatestChild<T(!new)>(cmp: (T, T) -> int, s: seq<T>, base: nat, n: nat, r: nat)
    requires TotalPreorder(cmp) && base + n <= |s| && 2 * r + 1 < n
    ensures var c := 2 * r + 1;
      if c + 1 < n && Compare(cmp, s[base + c], s[base + c + 1]) < 0 then Latest(cmp, s, base, n, r, c + 1)
      else Latest(cmp, s, base, n, r, c)
  {
    var c := 2 * r + 1;
    Compared(cmp, s[base + c], s[base + c]);
    if c + 1 < n {
      Compared(cmp, s[base + c], s[base + c + 1]);
      Compared(cmp, s[base + c + 1], s[base + c + 1]);
    }
    hide Compare, TotalPreorder, Le;
  }

  /** The later child goes up. */
  lemma SiftStep<T(!new)>(cmp: (T, T) -> int, s: seq<T>, base: nat, from: nat, n: nat, r: nat, c: nat)
    requires base + n <= |s| && Sifting(cmp, s, base, from, n, r) && from <= r
    requires Latest(cmp, s, base, n, r, c) && Le(cmp, s[base + r], s[base + c])
    ensures Sifting(cmp, s[base + r := s[base + c]][base + c := s[base + r]], base, from, n, c)
  {
    hide Le, Compare;
  }

  /** No child in reach, or none that comes later. */
  lemma SiftEnds<T(!new)>(cmp: (T, T) -> int, s: seq<T>, base: nat, from: nat, n: nat, r: nat, c: nat)
    requires TotalPreorder(cmp) && base + n <= |s| && Sifting(cmp, s, base, from, n, r) && r < n
    requires 2 * r + 1 >= n || (Latest(cmp, s, base, n, r, c) && Le(cmp, s[base + c], s[base + r]))
    ensures HeapFrom(cmp, s, base, from, n)
  {
    hide Compare, Le, TotalPreorder;
    forall k: nat, d: nat | Child(k, d) && from <= k && d < n ensures Le(cmp, s[base + d], s[base + k]) {
      if k == r { Trans(cmp, s[base + d], s[base + c], s[base + r]); }
    }
  }

  /** Each level down at least doubles the place. */
  lemma LevelDown(k: nat, root: nat, child: nat, n: nat)
    requires root + 1 >= Pow(2, k) && Child(root, child) && child < n
    ensures child > root && child + 1 >= Pow(2, k + 1) && k + 1 <= Log2(n)
  {
    hide Log2;
    PowSucc(2, k);
    AtMostLog2(k + 1, n);
  }

  /** The child of r that comes no earlier than the other. */
  method LaterChild<T(!new)>(sorter: Sorter<T>, a: array<T>, base: nat, n: nat, r: nat) returns (child: nat)
    requires TotalPreorder(sorter.cmp) && base + n <= a.Length && 2 * r + 1 < n
    modifies sorter
    ensures Latest(sorter.cmp, a[..], base, n, r, child) && Child(r, child) && child < n
    ensures sorter.calls <= old(sorter.calls) + 1
  {
    hide Compare, TotalPreorder;
    LatestChild(sorter.cmp, a[..], base, n, r);
    child := 2 * r + 1;
    if child + 1 < n {
      var order := sorter.Compare(a[base + child], a[base + child + 1]);
      if order < 0 {
        child := child + 1;
      }
    }
  }

  /** The heap s0 while its element root0 is on the way down, at r after k levels. */
  ghost predicate Sifted<T>(cmp: (T, T) -> int, s0: seq<T>, s: seq<T>, base: nat, root0: nat, n: nat, r: nat, k: nat)
  {
    && base + n <= |s| && root0 <= r < n && Sifting(cmp, s, base, root0, n, r) && Rearranged(s0, s, base, base + n)
    && r + 1 >= Pow(2, k) && k <= Log2(n)
  }

  lemma SiftedStarts<T>(cmp: (T, T) -> int, s: seq<T>, base: nat, root0: nat, n: nat)
    requires base + n <= |s| && root0 < n && HeapFrom(cmp, s, base, root0 + 1, n)
    ensures Sifted(cmp, s, s, base, root0, n, root0, 0)
  {
    hide Sifting, HeapFrom, Rearranged, Log2;
    SiftStarts(cmp, s, base, root0, n);
    SameRearranged(s, base, base + n);
  }

  lemma SiftedStep<T(!new)>(cmp: (T, T) -> int, s0: seq<T>, s: seq<T>, base: nat, root0: nat, n: nat, r: nat, k: nat,
                            c: nat)
    requires TotalPreorder(cmp) && Sifted(cmp, s0, s, base, root0, n, r, k) && Latest(cmp, s, base, n, r, c)
    requires Child(r, c) && c < n && Compare(cmp, s[base + r], s[base + c]) < 0
    ensures Sifted(cmp, s0, s[base + r := s[base + c]][base + c := s[base + r]], base, root0, n, c, k + 1)
  {
    hide Sifting, Rearranged, Log2, Pow, Latest, TotalPreorder, Compare, Child;
    Compared(cmp, s[base + r], s[base + c]);
    SiftStep(cmp, s, base, root0, n, r, c);
    LevelDown(k, r, c, n);
    SwappedToo(s0, s, base + r, base + c, base, base + n);
  }

  lemma SiftedEnds<T(!new)>(cmp: (T, T) -> int, s0: seq<T>, s: seq<T>, base: nat, root0: nat, n: nat, r: nat, k: nat,
                            c: nat)
    requires TotalPreorder(cmp) && Sifted(cmp, s0, s, base, root0, n, r, k)
    requires 2 * r + 1 >= n || (Latest(cmp, s, base, n, r, c) && c < n && Compare(cmp, s[base + r], s[base + c]) >= 0)
    ensures HeapFrom(cmp, s, base, root0, n) && Rearranged(s0, s, base, base + n) && 2 * k <= 2 * Log2(n)
  {
    hide Sifting, HeapFrom, Rearranged, Log2, Pow, Latest, TotalPreorder, Compare;
    if 2 * r + 1 < n { Compared(cmp, s[base + r], s[base + c]); }
    SiftEnds(cmp, s, base, root0, n, r, c);
  }

  lemma OneLevelMore<T>(cmp: (T, T) -> int, s0: seq<T>, s: seq<T>, base: nat, root0: nat, n: nat, r: nat, k: nat,
                        c: nat)
    requires Sifted(cmp, s0, s, base, root0, n, r, k) && Child(r, c) && c < n
    ensures 2 * k + 2 <= 2 * Log2(n) && r < c
  {
    hide Sifting, Rearranged, Log2, Pow;
    LevelDown(k, r, c, n);
  }

  /** Given heaps at both children of root0, makes one at root0. */
  method SiftDown<T(!new)>(sorter: Sorter<T>, a: array<T>, base: nat, root0: nat, n: nat)
    requires TotalPreorder(sorter.cmp) && root0 < n && base + n <= a.Length
    requires HeapFrom(sorter.cmp, a[..], base, root0 + 1, n)
    modifies a, sorter
    ensures HeapFrom(sorter.cmp, a[..], base, root0, n) && Rearranged(old(a[..]), a[..], base, base + n)
    ensures sorter.calls <= old(sorter.calls) + 2 * Log2(n)
  {
    hide Compare, Rearranged, TotalPreorder, Le, HeapFrom, Sifted, Latest, Child, Log2, Pow;
    ghost var cmp, s0, k := sorter.cmp, a[..], 0;
    SiftedStarts(cmp, s0, base, root0, n);
    var root := root0;
    while true
      invariant root < n && Sifted(cmp, s0, a[..], base, root0, n, root, k)
      invariant sorter.calls <= old(sorter.calls) + 2 * k
      decreases n - root
    {
      if 2 * root + 1 >= n {
        SiftedEnds(cmp, s0, a[..], base, root0, n, root, k, root);
        return;
      }
      var child := LaterChild(sorter, a, base, n, root);
      OneLevelMore(cmp, s0, a[..], base, root0, n, root, k, child);
      var order := sorter.Compare(a[base + root], a[base + child]);
      if order >= 0 {
        SiftedEnds(cmp, s0, a[..], base, root0, n, root, k, child);
        return;
      }
      SiftedStep(cmp, s0, a[..], base, root0, n, root, k, child);
      Swap(a, base + root, base + child);
      k := k + 1;
      root := child;
    }
  }

  lemma LeavesAreHeap<T>(cmp: (T, T) -> int, s: seq<T>, base: nat, n: nat)
    requires base + n <= |s|
    ensures HeapFrom(cmp, s, base, n / 2, n)
  {
  }

  /** The first element of a heap comes no earlier than any other. */
  lemma {:induction false} RootIsLast<T(!new)>(cmp: (T, T) -> int, s: seq<T>, base: nat, n: nat, k: nat)
    requires TotalPreorder(cmp) && base + n <= |s| && HeapFrom(cmp, s, base, 0, n) && k < n
    ensures Le(cmp, s[base + k], s[base])
    decreases k
  {
    hide Le, Compare;
    if k == 0 {
      Compared(cmp, s[base], s[base]);
    } else {
      hide Compare, TotalPreorder;
      var p := (k - 1) / 2;
      assert Child(p, k);
      RootIsLast(cmp, s, base, n, p);
      Trans(cmp, s[base + k], s[base + p], s[base]);
    }
  }

  /** While a heap is taken apart: a heap below, the sorted rest above. */
  ghost predicate Unheaping<T>(cmp: (T, T) -> int, s: seq<T>, base: nat, end: nat, n: nat)
    requires base + n <= |s| && end <= n
  {
    && HeapFrom(cmp, s, base, 0, end) && Sorted(cmp, s, base + end, base + n)
    && Below(cmp, s, base, base + end, base + end, base + n)
  }

  /** The same, with no order yet between the first element and the rest of the heap. */
  ghost predicate Rootless<T>(cmp: (T, T) -> int, s: seq<T>, base: nat, end: nat, n: nat)
    requires base + n <= |s| && end <= n
  {
    && HeapFrom(cmp, s, base, 1, end) && Sorted(cmp, s, base + end, base + n)
    && Below(cmp, s, base, base + end, base + end, base + n)
  }

  /** The last of the heap, first in it, goes to its end. */
  lemma UnheapStep<T(!new)>(cmp: (T, T) -> int, s: seq<T>, base: nat, end: nat, n: nat)
    requires TotalPreorder(cmp) && base + n <= |s| && end < n && Unheaping(cmp, s, base, end + 1, n)
    ensures var t := s[base := s[base + end]][base + end := s[base]];
      Rootless(cmp, t, base, end, n) && Rearranged(s, t, base, base + n)
  {
    hide Rearranged, Rootless, Unheaping, TotalPreorder;
    UnheapSwap(cmp, s, base, end, n);
    Swapped(s, base, base + end, base, base + n);
  }

  lemma UnheapSwap<T(!new)>(cmp: (T, T) -> int, s: seq<T>, base: nat, end: nat, n: nat)
    requires TotalPreorder(cmp) && base + n <= |s| && end < n && Unheaping(cmp, s, base, end + 1, n)
    ensures Rootless(cmp, s[base := s[base + end]][base + end := s[base]], base, end, n)
  {
    hide Compare, Le, TotalPreorder;
    var t := s[base := s[base + end]][base + end := s[base]];
    forall i, j | base <= i < base + end && base + end <= j < base + n && i < |t| && j < |t|
      ensures Le(cmp, t[i], t[j])
    {
      if j == base + end { RootIsLast(cmp, s, base, end + 1, if i == base then end else i - base); }
    }
  }

  /** And the heap that is left may be put in order again without disturbing the rest. */
  lemma Reheaped<T(!new)>(cmp: (T, T) -> int, s: seq<T>, t: seq<T>, u: seq<T>, base: nat, end: nat, n: nat)
    requires end <= n && base + n <= |t| == |u| && Rearranged(s, t, base, base + n) && Rootless(cmp, t, base, end, n)
    requires Rearranged(t, u, base, base + end) && HeapFrom(cmp, u, base, 0, end)
    ensures Unheaping(cmp, u, base, end, n) && Rearranged(s, u, base, base + n)
  {
    hide Compare, Rearranged, Le, Sorted, Below, HeapFrom;
    StillSorted(cmp, t, u, base, base + end, base + end, base + n);
    StillBelow(cmp, t, u, base, base + end, base, base + end, base + end, base + n);
    Widened(t, u, base, base + end, base, base + n);
    RearrangedTwice(s, t, u, base, base + n);
  }

  lemma WholeHeap<T>(cmp: (T, T) -> int, s: seq<T>, base: nat, n: nat)
    requires base + n <= |s| && HeapFrom(cmp, s, base, 0, n)
    ensures Unheaping(cmp, s, base, n, n)
  {
    hide HeapFrom;
  }

  lemma Unheaped<T>(cmp: (T, T) -> int, s: seq<T>, base: nat, n: nat)
    requires 1 <= n && base + n <= |s| && Unheaping(cmp, s, base, 1, n)
    ensures Sorted(cmp, s, base, base + n)
  {
    hide Compare, Le, HeapFrom;
  }

  /** One more call, each of at most `each` comparisons. */
  lemma OneMore(before: nat, now: nat, calls: nat, later: nat, each: nat)
    requires now <= before + calls * each && later <= now + each
    ensures later <= before + (calls + 1) * each
  {
    Distribute(calls, 1, each);
  }

  lemma RootlessHeap<T>(cmp: (T, T) -> int, s: seq<T>, base: nat, end: nat, n: nat)
    requires base + n <= |s| && end <= n && Rootless(cmp, s, base, end, n)
    ensures HeapFrom(cmp, s, base, 1, end)
  {
    hide HeapFrom;
  }

  /** Takes the largest of the heap out, and puts the rest in order. */
  method Unheap<T(!new)>(sorter: Sorter<T>, a: array<T>, base: nat, end: nat, n: nat)
    requires TotalPreorder(sorter.cmp) && 0 < end < n && base + n <= a.Length
    requires Unheaping(sorter.cmp, a[..], base, end + 1, n)
    modifies a, sorter
    ensures Unheaping(sorter.cmp, a[..], base, end, n) && Rearranged(old(a[..]), a[..], base, base + n)
    ensures sorter.calls <= old(sorter.calls) + 2 * Log2(n)
  {
    hide Compare, Rearranged, TotalPreorder, Le, HeapFrom, Unheaping, Rootless, Sorted, Below, Log2;
    ghost var cmp, s := sorter.cmp, a[..];
    UnheapStep(cmp, s, base, end, n);
    Log2Monotone(end, n);
    Swap(a, base, base + end);
    ghost var t := a[..];
    RootlessHeap(cmp, t, base, end, n);
    SiftDown(sorter, a, base, 0, end);
    Reheaped(cmp, s, t, a[..], base, end, n);
  }

  /** s0 with the heap order made down to element i. */
  ghost predicate Building<T>(cmp: (T, T) -> int, s0: seq<T>, s: seq<T>, base: nat, i: nat, n: nat)
  {
    base + n <= |s| && HeapFrom(cmp, s, base, i, n) && Rearranged(s0, s, base, base + n)
  }

  lemma BuildStarts<T>(cmp: (T, T) -> int, s: seq<T>, base: nat, n: nat)
    requires base + n <= |s|
    ensures Building(cmp, s, s, base, n / 2, n)
  {
    LeavesAreHeap(cmp, s, base, n);
    hide HeapFrom, Rearranged;
    SameRearranged(s, base, base + n);
  }

  method BuildHeap<T(!new)>(sorter: Sorter<T>, a: array<T>, base: nat, n: nat)
    requires TotalPreorder(sorter.cmp) && base + n <= a.Length
    modifies a, sorter
    ensures Unheaping(sorter.cmp, a[..], base, n, n) && Rearranged(old(a[..]), a[..], base, base + n)
    ensures sorter.calls <= old(sorter.calls) + n / 2 * (2 * Log2(n))
  {
    hide Rearranged, TotalPreorder, HeapFrom, Building, Unheaping, Log2;
    ghost var cmp, s0, each := sorter.cmp, a[..], 2 * Log2(n);
    BuildStarts(cmp, s0, base, n);
    var i := n / 2;
    while i > 0
      invariant 0 <= i <= n / 2 && Building(cmp, s0, a[..], base, i, n)
      invariant sorter.calls <= old(sorter.calls) + (n / 2 - i) * each
    {
      ghost var s, calls := a[..], sorter.calls;
      BuildNow(cmp, s0, s, base, i, n);
      SiftDown(sorter, a, base, i - 1, n);
      BuildStep(cmp, s0, s, a[..], base, i, n);
      OneMore(old(sorter.calls), calls, n / 2 - i, sorter.calls, each);
      i := i - 1;
    }
    Built(cmp, s0, a[..], base, n);
  }

  lemma BuildNow<T>(cmp: (T, T) -> int, s0: seq<T>, s: seq<T>, base: nat, i: nat, n: nat)
    requires Building(cmp, s0, s, base, i, n)
    ensures base + n <= |s| && HeapFrom(cmp, s, base, i, n)
  {
    hide HeapFrom;
  }

  lemma BuildStep<T>(cmp: (T, T) -> int, s0: seq<T>, s: seq<T>, t: seq<T>, base: nat, i: nat, n: nat)
    requires i > 0 && Building(cmp, s0, s, base, i, n) && base + n <= |t|
    requires HeapFrom(cmp, t, base, i - 1, n) && Rearranged(s, t, base, base + n)
    ensures Building(cmp, s0, t, base, i - 1, n)
  {
    hide HeapFrom, Rearranged;
    RearrangedTwice(s0, s, t, base, base + n);
  }

  lemma Built<T>(cmp: (T, T) -> int, s0: seq<T>, s: seq<T>, base: nat, n: nat)
    requires Building(cmp, s0, s, base, 0, n)
    ensures base + n <= |s| && Unheaping(cmp, s, base, n, n) && Rearranged(s0, s, base, base + n)
  {
    hide HeapFrom, Rearranged, Unheaping;
    WholeHeap(cmp, s, base, n);
  }

  method HeapSort<T(!new)>(sorter: Sorter<T>, a: array<T>, base: nat, n: nat)
    requires TotalPreorder(sorter.cmp) && 0 < n && base + n <= a.Length
    modifies a, sorter
    ensures Sorted(sorter.cmp, a[..], base, base + n) && Rearranged(old(a[..]), a[..], base, base + n)
    ensures sorter.calls <= old(sorter.calls) + (n / 2 + n) * (2 * Log2(n))
  {
    hide Rearranged, TotalPreorder, Unheaping, Sorted, Log2;
    ghost var cmp, s0, each := sorter.cmp, a[..], 2 * Log2(n);
    BuildHeap(sorter, a, base, n);
    var end := n - 1;
    while end > 0
      invariant 0 <= end < n && Unheaping(cmp, a[..], base, end + 1, n) && Rearranged(s0, a[..], base, base + n)
      invariant sorter.calls <= old(sorter.calls) + (n / 2 + (n - 1 - end)) * each
    {
      ghost var s, calls := a[..], sorter.calls;
      Unheap(sorter, a, base, end, n);
      RearrangedTwice(s0, s, a[..], base, base + n);
      OneMore(old(sorter.calls), calls, n / 2 + (n - 1 - end), sorter.calls, each);
      end := end - 1;
    }
    Unheaped(cmp, a[..], base, n);
    MulMonotone(n / 2 + (n - 1 - end), n / 2 + n, each);
  }

  // ---- partition ---------------------------------------------------------------------------------------------

  lemma NotBefore<T(!new)>(cmp: (T, T) -> int, x: T, y: T)
    requires TotalPreorder(cmp)
    ensures Le(cmp, x, y) <==> !(Compare(cmp, y, x) < 0)
    ensures Le(cmp, x, y) <==> !(Compare(cmp, x, y) > 0)
  {
    hide Compare;
    assert Compare(cmp, y, x) < 0 <==> Compare(cmp, x, y) > 0;
  }

  /** Whether the elements at i and j are in order. */
  ghost predicate InOrder<T>(cmp: (T, T) -> int, s: seq<T>, i: nat, j: nat)
  {
    i < |s| && j < |s| && Le(cmp, s[i], s[j])
  }

  /** Puts the elements at i < j in order. */
  method Order<T(!new)>(sorter: Sorter<T>, a: array<T>, i: nat, j: nat, ghost lo: nat, ghost hi: nat)
    requires TotalPreorder(sorter.cmp) && lo <= i < j < hi <= a.Length
    modifies a, sorter
    ensures InOrder(sorter.cmp, a[..], i, j) && Rearranged(old(a[..]), a[..], lo, hi)
    ensures a[..] == old(a[..]) || a[..] == old(a[..])[j := old(a[i])][i := old(a[j])]
    ensures InOrder(sorter.cmp, old(a[..]), i, j) ==> a[..] == old(a[..])
    ensures sorter.calls == old(sorter.calls) + 1
  {
    hide Rearranged, TotalPreorder, Le, Compare;
    NotBefore(sorter.cmp, a[i], a[j]);
    Compared(sorter.cmp, a[j], a[i]);
    var order := sorter.Compare(a[j], a[i]);
    if order < 0 {
      Swapped(a[..], j, i, lo, hi);
      Swap(a, j, i);
    } else {
      SameRearranged(a[..], lo, hi);
    }
  }

  /** After the three comparisons the first, the middle and the last are in order. */
  lemma ThreeInOrder<T(!new)>(cmp: (T, T) -> int, s1: seq<T>, s2: seq<T>, s3: seq<T>, lo: nat, mid: nat, hi: nat)
    requires TotalPreorder(cmp) && lo < mid < hi < |s1| && InOrder(cmp, s1, lo, mid)
    requires InOrder(cmp, s2, lo, hi) && (s2 == s1 || s2 == s1[hi := s1[lo]][lo := s1[hi]])
    requires s2 == s1 || !InOrder(cmp, s1, lo, hi)
    requires InOrder(cmp, s3, mid, hi) && (s3 == s2 || s3 == s2[hi := s2[mid]][mid := s2[hi]])
    ensures InOrder(cmp, s3, lo, mid) && InOrder(cmp, s3, mid, hi)
  {
    NotBefore(cmp, s1[lo], s1[hi]);
    Compared(cmp, s1[hi], s1[lo]);
    if s2 != s1 { Trans(cmp, s1[hi], s1[lo], s1[mid]); }
    hide Le, TotalPreorder;
  }

  lemma ParkedInOrder<T>(cmp: (T, T) -> int, s: seq<T>, lo: nat, mid: nat, hi: nat)
    requires lo < mid < hi - 1 && hi < |s| && InOrder(cmp, s, lo, mid) && InOrder(cmp, s, mid, hi)
    ensures var t := s[mid := s[hi - 1]][hi - 1 := s[mid]]; InOrder(cmp, t, lo, hi - 1) && InOrder(cmp, t, hi - 1, hi)
  {
    hide Le;
  }

  /** The median of the first, the middle and the last becomes the pivot, next to the end, between two sentinels. */
  method ParkMedian<T(!new)>(sorter: Sorter<T>, a: array<T>, base: nat, n: nat)
    requires TotalPreorder(sorter.cmp) && n > 12 && base + n <= a.Length
    modifies a, sorter
    ensures InOrder(sorter.cmp, a[..], base, base + n - 2) && InOrder(sorter.cmp, a[..], base + n - 2, base + n - 1)
    ensures Rearranged(old(a[..]), a[..], base, base + n)
    ensures sorter.calls == old(sorter.calls) + 3
  {
    hide Rearranged, TotalPreorder, InOrder, Le, Compare;
    var lo, mid, hi := base, base + n / 2, base + n - 1;
    ghost var cmp, s0 := sorter.cmp, a[..];
    Order(sorter, a, lo, mid, base, base + n);
    ghost var s1 := a[..];
    Order(sorter, a, lo, hi, base, base + n);
    ghost var s2 := a[..];
    Order(sorter, a, mid, hi, base, base + n);
    ghost var s3 := a[..];
    ThreeInOrder(cmp, s1, s2, s3, lo, mid, hi);
    RearrangedFour(s0, s1, s2, s3, mid, hi - 1, base, base + n);
    ParkedInOrder(cmp, s3, lo, mid, hi);
    Swap(a, mid, hi - 1);
  }

  lemma RearrangedFour<T>(s0: seq<T>, s1: seq<T>, s2: seq<T>, s3: seq<T>, i: nat, j: nat, lo: nat, hi: nat)
    requires Rearranged(s0, s1, lo, hi) && Rearranged(s1, s2, lo, hi) && Rearranged(s2, s3, lo, hi)
    requires lo <= i < hi <= |s3| && lo <= j < hi
    ensures Rearranged(s0, s3[i := s3[j]][j := s3[i]], lo, hi)
  {
    hide Rearranged;
    RearrangedTwice(s0, s1, s2, lo, hi);
    RearrangedTwice(s0, s2, s3, lo, hi);
    SwappedToo(s0, s3, i, j, lo, hi);
  }

  /** The scans so far: up to i nothing after the pivot, from j on nothing before it. */
  ghost predicate Scanned<T>(cmp: (T, T) -> int, s: seq<T>, lo: nat, i: nat, j: nat, pv: nat)
  {
    && lo <= i && j <= pv < |s|
    && (forall k :: lo <= k <= i && k < |s| ==> Le(cmp, s[k], s[pv]))
    && (forall k :: j <= k <= pv ==> Le(cmp, s[pv], s[k]))
  }

  lemma ScanStarts<T(!new)>(cmp: (T, T) -> int, s: seq<T>, lo: nat, pv: nat)
    requires TotalPreorder(cmp) && lo < pv < |s| && InOrder(cmp, s, lo, pv)
    ensures Scanned(cmp, s, lo, lo, pv, pv)
  {
    Compared(cmp, s[pv], s[pv]);
    hide Le, TotalPreorder;
  }

  /** Up past everything that comes before the pivot: `stop` does not, so the scan never runs past the pivot. */
  method ScanUp<T(!new)>(sorter: Sorter<T>, a: array<T>, i0: nat, pv: nat, ghost stop: nat) returns (i: nat)
    requires TotalPreorder(sorter.cmp) && i0 < stop <= pv < a.Length && Le(sorter.cmp, a[pv], a[stop])
    modifies sorter
    ensures i0 < i <= stop && Le(sorter.cmp, a[pv], a[i]) && forall k :: i0 < k < i ==> Le(sorter.cmp, a[k], a[pv])
    ensures sorter.calls == old(sorter.calls) + (i - i0)
  {
    hide TotalPreorder, Le, Compare;
    i := i0;
    while true
      invariant i0 <= i < stop && (forall k :: i0 < k <= i ==> Le(sorter.cmp, a[k], a[pv]))
      invariant sorter.calls == old(sorter.calls) + (i - i0)
      decreases stop - i
    {
      i := i + 1;
      NotBefore(sorter.cmp, a[pv], a[i]);
      Compared(sorter.cmp, a[i], a[pv]);
      var order := sorter.Compare(a[i], a[pv]);
      if order >= 0 {
        break;
      }
    }
  }

  /** Down past everything that comes after it: `stop` does not. */
  method ScanDown<T(!new)>(sorter: Sorter<T>, a: array<T>, j0: nat, pv: nat, ghost stop: nat) returns (j: nat)
    requires TotalPreorder(sorter.cmp) && stop < j0 <= pv < a.Length && Le(sorter.cmp, a[stop], a[pv])
    modifies sorter
    ensures stop <= j < j0 && Le(sorter.cmp, a[j], a[pv]) && forall k :: j < k < j0 ==> Le(sorter.cmp, a[pv], a[k])
    ensures sorter.calls == old(sorter.calls) + (j0 - j)
  {
    hide TotalPreorder, Le, Compare;
    j := j0;
    while true
      invariant stop < j <= j0 && (forall k :: j <= k < j0 ==> Le(sorter.cmp, a[pv], a[k]))
      invariant sorter.calls == old(sorter.calls) + (j0 - j)
      decreases j - stop
    {
      j := j - 1;
      NotBefore(sorter.cmp, a[j], a[pv]);
      Compared(sorter.cmp, a[j], a[pv]);
      var order := sorter.Compare(a[j], a[pv]);
      if order <= 0 {
        break;
      }
    }
  }

  /** The partition of s0 while the scans stand at i and j; the pivot is next to the end. */
  ghost predicate Scanning<T>(cmp: (T, T) -> int, s0: seq<T>, s: seq<T>, lo: nat, n: nat, i: nat, j: nat)
  {
    && n > 12 && lo + n <= |s| && lo <= i < j <= lo + n - 2 && Scanned(cmp, s, lo, i, j, lo + n - 2)
    && InOrder(cmp, s, lo + n - 2, lo + n - 1) && Rearranged(s0, s, lo, lo + n)
  }

  /** Where both scans stopped next. */
  ghost predicate Stopped<T>(cmp: (T, T) -> int, s: seq<T>, i: nat, j: nat, i1: nat, j1: nat, pv: nat)
  {
    && pv < |s| && i < i1 <= j && i1 - 1 <= j1 < j && i1 <= pv && j1 <= pv
    && Le(cmp, s[pv], s[i1]) && Le(cmp, s[j1], s[pv])
    && (forall k :: i < k < i1 ==> Le(cmp, s[k], s[pv])) && (forall k :: j1 < k < j && k < |s| ==> Le(cmp, s[pv], s[k]))
  }

  lemma ScanningStarts<T(!new)>(cmp: (T, T) -> int, s0: seq<T>, s: seq<T>, lo: nat, n: nat)
    requires TotalPreorder(cmp) && n > 12 && lo + n <= |s| && Rearranged(s0, s, lo, lo + n)
    requires InOrder(cmp, s, lo, lo + n - 2) && InOrder(cmp, s, lo + n - 2, lo + n - 1)
    ensures Scanning(cmp, s0, s, lo, n, lo, lo + n - 2)
  {
    hide TotalPreorder, InOrder, Rearranged, Scanned;
    ScanStarts(cmp, s, lo, lo + n - 2);
  }

  /** Both scans may go on: each has a sentinel. */
  lemma Sentinels<T>(cmp: (T, T) -> int, s0: seq<T>, s: seq<T>, lo: nat, n: nat, i: nat, j: nat)
    requires Scanning(cmp, s0, s, lo, n, i, j)
    ensures lo <= i < j <= lo + n - 2 < |s| && Le(cmp, s[lo + n - 2], s[j]) && Le(cmp, s[i], s[lo + n - 2])
  {
    hide Le, Rearranged, InOrder;
  }

  /** The next two elements on the wrong sides change places. */
  lemma ScanningStep<T>(cmp: (T, T) -> int, s0: seq<T>, s: seq<T>, lo: nat, n: nat, i: nat, j: nat, i1: nat, j1: nat)
    requires Scanning(cmp, s0, s, lo, n, i, j) && Stopped(cmp, s, i, j, i1, j1, lo + n - 2) && i1 < j1
    ensures Scanning(cmp, s0, s[i1 := s[j1]][j1 := s[i1]], lo, n, i1, j1)
  {
    hide Rearranged;
    SwappedToo(s0, s, i1, j1, lo, lo + n);
    hide Le;
  }

  /** Nothing before p comes after it, and nothing after p comes before it. */
  ghost predicate Parted<T>(cmp: (T, T) -> int, s: seq<T>, lo: nat, p: nat, hi: nat)
  {
    lo <= p < hi <= |s| && Below(cmp, s, lo, p, p, hi) && Below(cmp, s, lo, p + 1, p + 1, hi)
  }

  /** Once the scans have met, the pivot goes between the two sides. */
  lemma ScanningEnds<T(!new)>(cmp: (T, T) -> int, s0: seq<T>, s: seq<T>, lo: nat, n: nat, i: nat, j: nat, i1: nat,
                              j1: nat)
    requires TotalPreorder(cmp) && Scanning(cmp, s0, s, lo, n, i, j)
    requires Stopped(cmp, s, i, j, i1, j1, lo + n - 2) && i1 >= j1
    ensures var pv := lo + n - 2; var t := s[i1 := s[pv]][pv := s[i1]];
      Parted(cmp, t, lo, i1, lo + n) && Rearranged(s0, t, lo, lo + n)
  {
    hide Rearranged, TotalPreorder;
    var pv := lo + n - 2;
    var t := s[i1 := s[pv]][pv := s[i1]];
    SwappedToo(s0, s, i1, pv, lo, lo + n);
    Sides(cmp, s0, s, lo, n, i, j, i1, j1);
    forall a, b | lo <= a <= i1 && i1 <= b < lo + n && a < |t| && b < |t| ensures a == b || Le(cmp, t[a], t[b]) {
      Trans2(cmp, t[a], t[i1], t[b]);
    }
  }

  lemma Trans2<T(!new)>(cmp: (T, T) -> int, x: T, y: T, z: T)
    requires TotalPreorder(cmp)
    ensures Le(cmp, x, y) && Le(cmp, y, z) ==> Le(cmp, x, z)
  {
    hide Le;
  }

  lemma Sides<T(!new)>(cmp: (T, T) -> int, s0: seq<T>, s: seq<T>, lo: nat, n: nat, i: nat, j: nat, i1: nat, j1: nat)
    requires TotalPreorder(cmp) && Scanning(cmp, s0, s, lo, n, i, j)
    requires Stopped(cmp, s, i, j, i1, j1, lo + n - 2) && i1 >= j1
    ensures var pv := lo + n - 2; var t := s[i1 := s[pv]][pv := s[i1]];
      && |t| == |s| && (forall k :: lo <= k <= i1 ==> Le(cmp, t[k], t[i1]))
      && (forall k :: i1 <= k < lo + n ==> Le(cmp, t[i1], t[k]))
  {
    var pv := lo + n - 2;
    Compared(cmp, s[pv], s[pv]);
    hide Le, TotalPreorder, Rearranged;
  }

  /** The two scans. */
  method Scans<T(!new)>(sorter: Sorter<T>, a: array<T>, i: nat, j: nat, pv: nat) returns (i1: nat, j1: nat)
    requires TotalPreorder(sorter.cmp) && i < j <= pv < a.Length
    requires Le(sorter.cmp, a[pv], a[j]) && Le(sorter.cmp, a[i], a[pv])
    modifies sorter
    ensures Stopped(sorter.cmp, a[..], i, j, i1, j1, pv) && i < i1 <= j && i1 - 1 <= j1 < j
    ensures sorter.calls == old(sorter.calls) + (i1 - i) + (j - j1)
  {
    hide TotalPreorder, Le, Compare;
    i1 := ScanUp(sorter, a, i, pv, j);
    j1 := ScanDown(sorter, a, j, pv, i1 - 1);
  }

  /** Splits a range at its pivot, with a comparison an element and a few more. */
  method Partition<T(!new)>(sorter: Sorter<T>, a: array<T>, base: nat, n: nat) returns (p: nat)
    requires TotalPreorder(sorter.cmp) && n > 12 && base + n <= a.Length
    modifies a, sorter
    ensures base <= p < base + n && Parted(sorter.cmp, a[..], base, p, base + n)
    ensures Rearranged(old(a[..]), a[..], base, base + n)
    ensures sorter.calls <= old(sorter.calls) + n + 2
  {
    hide Rearranged, TotalPreorder, Le, Compare, Scanning, Stopped, InOrder, Parted;
    ghost var cmp, s0 := sorter.cmp, a[..];
    ParkMedian(sorter, a, base, n);
    ScanningStarts(cmp, s0, a[..], base, n);
    var lo, pv := base, base + n - 2;
    var i, j := lo, pv;
    while true
      invariant lo <= i < j <= pv && Scanning(cmp, s0, a[..], base, n, i, j)
      invariant sorter.calls == old(sorter.calls) + 3 + (i - lo) + (pv - j)
      decreases j - i
    {
      Sentinels(cmp, s0, a[..], base, n, i, j);
      var i1, j1 := Scans(sorter, a, i, j, pv);
      if i1 >= j1 {
        ScanningEnds(cmp, s0, a[..], base, n, i, j, i1, j1);
        Swap(a, i1, pv);
        return i1;
      }
      ScanningStep(cmp, s0, a[..], base, n, i, j, i1, j1);
      Swap(a, i1, j1);
      i, j := i1, j1;
    }
  }

  // ---- the sort ----------------------------------------------------------------------------------------------

  /** Of [first, end), everything outside [lo, hi) is where it belongs. */
  ghost predicate Placed<T>(cmp: (T, T) -> int, s: seq<T>, first: nat, lo: nat, hi: nat, end: nat)
  {
    && first <= lo <= hi <= end <= |s| && Sorted(cmp, s, first, lo) && Sorted(cmp, s, hi, end)
    && Below(cmp, s, first, lo, lo, end) && Below(cmp, s, first, hi, hi, end)
  }

  /** s0 with only [lo, hi) still to be sorted. */
  ghost predicate Sorting<T>(cmp: (T, T) -> int, s0: seq<T>, s: seq<T>, first: nat, lo: nat, hi: nat, end: nat)
  {
    Placed(cmp, s, first, lo, hi, end) && Rearranged(s0, s, first, end)
  }

  lemma SortingStarts<T>(cmp: (T, T) -> int, s: seq<T>, first: nat, end: nat)
    requires first <= end <= |s|
    ensures Sorting(cmp, s, s, first, first, end, end)
  {
    hide Rearranged, Le;
    SameRearranged(s, first, end);
  }

  /** Rearranging what is still to be sorted disturbs nothing. */
  lemma SortingOn<T>(cmp: (T, T) -> int, s0: seq<T>, s: seq<T>, t: seq<T>, first: nat, lo: nat, hi: nat, end: nat)
    requires Sorting(cmp, s0, s, first, lo, hi, end) && Rearranged(s, t, lo, hi)
    ensures Sorting(cmp, s0, t, first, lo, hi, end)
  {
    hide Rearranged, Sorted, Below;
    LengthKept(s, t, lo, hi);
    StillSorted(cmp, s, t, lo, hi, first, lo);
    StillSorted(cmp, s, t, lo, hi, hi, end);
    StillBelow(cmp, s, t, lo, hi, first, lo, lo, end);
    StillBelow(cmp, s, t, lo, hi, first, hi, hi, end);
    WidenedToo(s0, s, t, lo, hi, first, end);
  }

  lemma LengthKept<T>(s: seq<T>, t: seq<T>, lo: nat, hi: nat)
    requires Rearranged(s, t, lo, hi)
    ensures |s| == |t|
  {
  }

  lemma WidenedToo<T>(s0: seq<T>, s: seq<T>, t: seq<T>, lo: nat, hi: nat, first: nat, end: nat)
    requires Rearranged(s0, s, first, end) && Rearranged(s, t, lo, hi) && first <= lo && hi <= end <= |s|
    ensures Rearranged(s0, t, first, end)
  {
    hide Rearranged;
    Widened(s, t, lo, hi, first, end);
    RearrangedTwice(s0, s, t, first, end);
  }

  /** A partition, and one of its sides sorted, leaves the other side to be sorted. */
  lemma SortedSide<T>(cmp: (T, T) -> int, s0: seq<T>, s: seq<T>, t: seq<T>, first: nat, lo: nat, p: nat, hi: nat,
                      end: nat, lower: bool)
    requires Sorting(cmp, s0, s, first, lo, hi, end) && Parted(cmp, s, lo, p, hi)
    requires if lower then Rearranged(s, t, lo, p) && Sorted(cmp, t, lo, p)
      else Rearranged(s, t, p + 1, hi) && Sorted(cmp, t, p + 1, hi)
    ensures if lower then Sorting(cmp, s0, t, first, p + 1, hi, end) else Sorting(cmp, s0, t, first, lo, p, end)
  {
    hide Rearranged;
    var a, b := if lower then lo else p + 1, if lower then p else hi;
    LengthKept(s, t, a, b);
    Widened(s, t, a, b, lo, hi);
    SortingOn(cmp, s0, s, t, first, lo, hi, end);
    StillBelow(cmp, s, t, a, b, lo, p, p, hi);
    StillBelow(cmp, s, t, a, b, lo, p + 1, p + 1, hi);
    if lower { PlacedUpper(cmp, t, first, lo, p, hi, end); } else { PlacedLower(cmp, t, first, lo, p, hi, end); }
  }

  lemma PlacedUpper<T>(cmp: (T, T) -> int, s: seq<T>, first: nat, lo: nat, p: nat, hi: nat, end: nat)
    requires Placed(cmp, s, first, lo, hi, end) && Parted(cmp, s, lo, p, hi) && Sorted(cmp, s, lo, p)
    ensures Placed(cmp, s, first, p + 1, hi, end)
  {
    hide Le;
  }

  lemma PlacedLower<T>(cmp: (T, T) -> int, s: seq<T>, first: nat, lo: nat, p: nat, hi: nat, end: nat)
    requires Placed(cmp, s, first, lo, hi, end) && Parted(cmp, s, lo, p, hi) && Sorted(cmp, s, p + 1, hi)
    ensures Placed(cmp, s, first, lo, p, end)
  {
    hide Le;
  }

  /** What is left sorted, all is. */
  lemma SortingEnds<T>(cmp: (T, T) -> int, s0: seq<T>, s: seq<T>, t: seq<T>, first: nat, lo: nat, hi: nat, end: nat)
    requires Sorting(cmp, s0, s, first, lo, hi, end) && Rearranged(s, t, lo, hi) && Sorted(cmp, t, lo, hi)
    ensures Sorted(cmp, t, first, end) && Rearranged(s0, t, first, end)
  {
    hide Rearranged, Le;
    SortingOn(cmp, s0, s, t, first, lo, hi, end);
  }

  /** The comparisons a range of n elements may cost with d splits to go, L being at least log2 n. */
  function Budget(n: nat, d: nat, L: nat): nat
  {
    n * (2 * d + 3 * L + 6)
  }

  /** A split pays for itself out of one unit of depth. */
  lemma SplitBudget(n: nat, left: nat, right: nat, d: nat, L: nat)
    requires n > 12 && left + right + 1 == n && d > 0
    ensures n + 2 + Budget(left, d - 1, L) + Budget(right, d - 1, L) <= Budget(n, d, L)
  {
    var c := 2 * (d - 1) + 3 * L + 6;
    Distribute(left, right, c);
    Distribute(left + right, 1, c);
    Distribute(c, 2, n);
    assert Budget(n, d, L) == n * (c + 2);
  }

  /** When the splits are used up heap sort is within the budget. */
  lemma HeapBudget(n: nat, L: nat)
    requires Log2(n) <= L
    ensures (n / 2 + n) * (2 * Log2(n)) <= Budget(n, 0, L)
  {
    hide Log2;
    var k := Log2(n);
    var half := n / 2;
    MulMonotone2(half + n, half + n, 2 * k, 2 * L);
    assert (half + n) * (2 * L) == (2 * half + 2 * n) * L;
    MulMonotone(2 * half + 2 * n, 3 * n, L);
    assert (3 * n) * L == n * (3 * L);
    MulMonotone(3 * L, 3 * L + 6, n);
  }

  lemma SmallBudget(n: nat, d: nat, L: nat)
    requires n <= 12
    ensures Triangle(n) <= Budget(n, d, L)
  {
    TriangleSmall(n);
    MulMonotone(6, 2 * d + 3 * L + 6, n);
  }

  /** The smaller side has at most half. */
  lemma SmallerSide(n: nat, side: nat)
    requires n > 12 && 2 * side < n
    ensures side < n && 1 + Log2(side) <= Log2(n)
  {
    Log2Monotone(side, n / 2);
  }

  /** Sorts n elements with `depth0` splits to go; nested is how deep calls of this method are nested in this one. */
  method IntroSort<T(!new)>(sorter: Sorter<T>, a: array<T>, base0: nat, n0: nat, depth0: nat, ghost L: nat)
    returns (ghost nested: nat)
    requires TotalPreorder(sorter.cmp) && base0 + n0 <= a.Length && Log2(n0) <= L
    modifies a, sorter
    ensures Sorted(sorter.cmp, a[..], base0, base0 + n0) && Rearranged(old(a[..]), a[..], base0, base0 + n0)
    ensures sorter.calls <= old(sorter.calls) + Budget(n0, depth0, L) && nested <= Log2(n0)
    decreases n0
  {
    hide Rearranged, TotalPreorder, Sorting, Sorted, Parted, Budget, Log2, Triangle;
    var base: nat, n: nat, depth: nat := base0, n0, depth0;
    ghost var cmp, s0, end := sorter.cmp, a[..], base0 + n0;
    nested := 0;
    SortingStarts(cmp, s0, base0, end);
    while n > 12
      invariant base0 <= base && base + n <= end && n <= n0
      invariant Sorting(cmp, s0, a[..], base0, base, base + n, end)
      invariant sorter.calls + Budget(n, depth, L) <= old(sorter.calls) + Budget(n0, depth0, L) && nested <= Log2(n0)
    {
      Log2Monotone(n, n0);
      ghost var s := a[..];
      if depth == 0 {
        HeapBudget(n, L);
        HeapSort(sorter, a, base, n);
        SortingEnds(cmp, s0, s, a[..], base0, base, base + n, end);
        return;
      }
      depth := depth - 1;
      var p := Partition(sorter, a, base, n);
      ghost var t, deep := a[..], 0;
      SortingOn(cmp, s0, s, t, base0, base, base + n, end);
      var left := p - base;
      var right := n - left - 1;
      SplitBudget(n, left, right, depth + 1, L);
      if left < right {
        SmallerSide(n, left);
        deep := IntroSort(sorter, a, base, left, depth, L);
        SortedSide(cmp, s0, t, a[..], base0, base, p, base + n, end, true);
        base, n := p + 1, right;
      } else {
        SmallerSide(n, right);
        deep := IntroSort(sorter, a, p + 1, right, depth, L);
        SortedSide(cmp, s0, t, a[..], base0, base, p, base + n, end, false);
        n := left;
      }
      nested := if nested < 1 + deep then 1 + deep else nested;
    }
    SmallBudget(n, depth, L);
    ghost var s := a[..];
    InsertionSort(sorter, a, base, n);
    SortingEnds(cmp, s0, s, a[..], base0, base, base + n, end);
  }

  lemma ThirteenTimes(n: nat, L: nat)
    requires L >= 1
    ensures (2 * (2 * L) + 3 * L + 6) * n <= 13 * n * L
  {
    MulMonotone(2 * (2 * L) + 3 * L + 6, 13 * L, n);
    MulSwap(13, L, n);
  }

  /** The whole budget: at most 13 n log2 n comparisons. */
  lemma WholeBudget(n: nat)
    requires n >= 2
    ensures Log2(n) >= 1 && Budget(n, 2 * Log2(n), Log2(n)) <= 13 * n * Log2(n)
  {
    assert Log2(2) == 1;
    Log2Monotone(2, n);
    hide Log2;
    var L := Log2(n);
    ThirteenTimes(n, L);
    Commute(n, 2 * (2 * L) + 3 * L + 6);
  }

  /** qsort: any array, under any total preorder; cost is how often the comparator is called. */
  method Sort<T(!new)>(cmp: (T, T) -> int, a: array<T>) returns (ghost cost: nat, ghost nested: nat)
    requires TotalPreorder(cmp)
    modifies a
    ensures forall i, j :: 0 <= i < j < a.Length ==> Le(cmp, a[i], a[j])
    ensures multiset(a[..]) == multiset(old(a[..]))
    ensures cost <= 13 * a.Length * Log2(a.Length) && nested <= Log2(a.Length)
  {
    hide TotalPreorder, Budget, Log2, Le, Sorted, Rearranged;
    cost, nested := 0, 0;
    var n := a.Length;
    if n < 2 {
      return;
    }
    WholeBudget(n);
    var depth := 2 * Log2(n);
    ghost var s0 := a[..];
    var sorter := new Sorter(cmp);
    nested := IntroSort(sorter, a, 0, n, depth, Log2(n));
    cost := sorter.calls;
    AllSorted(cmp, s0, a[..]);
  }

  lemma AllSorted<T>(cmp: (T, T) -> int, s: seq<T>, t: seq<T>)
    requires Rearranged(s, t, 0, |s|) && Sorted(cmp, t, 0, |s|)
    ensures |s| == |t| && multiset(t) == multiset(s) && forall i, j :: 0 <= i < j < |t| ==> Le(cmp, t[i], t[j])
  {
    hide Le;
    assert s[0..|s|] == s && t[0..|s|] == t;
  }
}
