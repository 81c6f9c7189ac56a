/** Order and rearrangement of a range of a sequence, under a comparator. */
module Ordering {

  function Compare<T>(cmp: (T, T) -> int, x: T, y: T): int
  {
    cmp(x, y)
  }

  /** x does not come after y. */
  predicate Le<T>(cmp: (T, T) -> int, x: T, y: T)
  {
    Compare(cmp, x, y) <= 0
  }

  /** What a comparator has to be: its two directions agree, and not coming after is transitive. */
  ghost predicate TotalPreorder<T(!new)>(cmp: (T, T) -> int)
  {
    && (forall x, y :: Compare(cmp, x, y) < 0 <==> Compare(cmp, y, x) > 0)
    && (forall x, y, z :: Le(cmp, x, y) && Le(cmp, y, z) ==> Le(cmp, x, z))
  }

  lemma Trans<T(!new)>(cmp: (T, T) -> int, x: T, y: T, z: T)
    requires TotalPreorder(cmp) && Le(cmp, x, y) && Le(cmp, y, z)
    ensures Le(cmp, x, z)
  {
    hide Le;
  }

  /** What the sign of a comparison says. */
  lemma Compared<T(!new)>(cmp: (T, T) -> int, x: T, y: T)
    requires TotalPreorder(cmp)
    ensures Compare(cmp, x, y) <= 0 ==> Le(cmp, x, y)
    ensures Compare(cmp, x, y) >= 0 ==> Le(cmp, y, x)
    ensures Le(cmp, x, x)
  {
    hide Compare;
    assert Compare(cmp, y, x) < 0 <==> Compare(cmp, x, y) > 0;
    assert Compare(cmp, x, y) < 0 <==> Compare(cmp, y, x) > 0;
    assert Compare(cmp, x, x) < 0 <==> Compare(cmp, x, x) > 0;
  }

  ghost predicate Sorted<T>(cmp: (T, T) -> int, s: seq<T>, lo: nat, hi: nat)
  {
    forall i, j :: lo <= i < j < hi && j < |s| ==> Le(cmp, s[i], s[j])
  }

  /** Every element of one range comes no later than every element of another. */
  ghost predicate Below<T>(cmp: (T, T) -> int, s: seq<T>, lo: nat, hi: nat, lo2: nat, hi2: nat)
  {
    forall i, j :: lo <= i < hi && lo2 <= j < hi2 && i < |s| && j < |s| ==> Le(cmp, s[i], s[j])
  }

  // ---- rearrangements ---------------------------------------------------------------------------

  /** t is s with the elements of [lo, hi) in another order, and the same elsewhere. */
  ghost predicate Rearranged<T>(s: seq<T>, t: seq<T>, lo: nat, hi: nat)
  {
    && lo <= hi <= |s| == |t| && multiset(s[lo..hi]) == multiset(t[lo..hi])
    && s[..lo] == t[..lo] && s[hi..] == t[hi..]
  }

  lemma SameRearranged<T>(s: seq<T>, lo: nat, hi: nat)
    requires lo <= hi <= |s|
    ensures Rearranged(s, s, lo, hi)
  {
  }

  lemma RearrangedTwice<T>(s: seq<T>, t: seq<T>, u: seq<T>, lo: nat, hi: nat)
    requires Rearranged(s, t, lo, hi) && Rearranged(t, u, lo, hi)
    ensures Rearranged(s, u, lo, hi)
  {
  }

  lemma Swapped<T>(s: seq<T>, i: nat, j: nat, lo: nat, hi: nat)
    requires lo <= i < hi <= |s| && lo <= j < hi
    ensures Rearranged(s, s[i := s[j]][j := s[i]], lo, hi)
  {
    var t := s[i := s[j]][j := s[i]];
    var x := s[lo..hi];
    var y := t[lo..hi];
    assert y == x[i - lo := x[j - lo]][j - lo := x[i - lo]];
    SwappedBag(x, i - lo, j - lo);
    assert s[..lo] == t[..lo] && s[hi..] == t[hi..];
  }

  lemma SwappedBag<T>(x: seq<T>, i: nat, j: nat)
    requires i < |x| && j < |x|
    ensures multiset(x[i := x[j]][j := x[i]]) == multiset(x)
  {
  }

  lemma SwappedToo<T>(s0: seq<T>, s: seq<T>, i: nat, j: nat, lo: nat, hi: nat)
    requires lo <= i < hi <= |s| && lo <= j < hi && Rearranged(s0, s, lo, hi)
    ensures Rearranged(s0, s[i := s[j]][j := s[i]], lo, hi)
  {
    hide Rearranged;
    Swapped(s, i, j, lo, hi);
    RearrangedTwice(s0, s, s[i := s[j]][j := s[i]], lo, hi);
  }

  /** A rearrangement of a part is one of the whole. */
  lemma Widened<T>(s: seq<T>, t: seq<T>, lo: nat, hi: nat, lo2: nat, hi2: nat)
    requires Rearranged(s, t, lo, hi) && lo2 <= lo && hi <= hi2 <= |s|
    ensures Rearranged(s, t, lo2, hi2)
  {
    assert s[lo2..hi2] == s[..lo][lo2..] + s[lo..hi] + s[hi..][..hi2 - hi];
    assert t[lo2..hi2] == t[..lo][lo2..] + t[lo..hi] + t[hi..][..hi2 - hi];
    assert s[..lo2] == s[..lo][..lo2] && t[..lo2] == t[..lo][..lo2];
    assert s[hi2..] == s[hi..][hi2 - hi..] && t[hi2..] == t[hi..][hi2 - hi..];
  }

  /** Outside the range nothing moves. */
  lemma Elsewhere<T>(s: seq<T>, t: seq<T>, lo: nat, hi: nat, k: nat)
    requires Rearranged(s, t, lo, hi) && k < |s| && !(lo <= k < hi)
    ensures |t| == |s| && t[k] == s[k]
  {
    if k < lo {
      assert s[k] == s[..lo][k] && t[k] == t[..lo][k];
    } else {
      assert s[k] == s[hi..][k - hi] && t[k] == t[hi..][k - hi];
    }
  }

  /** Every element of the range was in the range. */
  lemma ComesFrom<T>(s: seq<T>, t: seq<T>, lo: nat, hi: nat, k: nat) returns (j: nat)
    requires Rearranged(s, t, lo, hi) && lo <= k < hi
    ensures lo <= j < hi <= |s| == |t| && t[k] == s[j]
  {
    assert t[lo..hi][k - lo] in multiset(t[lo..hi]);
    assert t[k] in multiset(s[lo..hi]);
    var x :| 0 <= x < |s[lo..hi]| && s[lo..hi][x] == t[k];
    j := lo + x;
  }

  /** Rearranging within either range keeps one below the other. */
  lemma StillBelow<T>(cmp: (T, T) -> int, s: seq<T>, t: seq<T>, lo: nat, hi: nat, a: nat, b: nat, c: nat, d: nat)
    requires Rearranged(s, t, lo, hi) && Below(cmp, s, a, b, c, d) && b <= |s| && d <= |s|
    requires (a <= lo && hi <= b) || hi <= a || b <= lo
    requires (c <= lo && hi <= d) || hi <= c || d <= lo
    ensures Below(cmp, t, a, b, c, d)
  {
    hide Rearranged, Le;
    forall i, j | a <= i < b && c <= j < d && i < |t| && j < |t| ensures Le(cmp, t[i], t[j]) {
      var i2 := Source(s, t, lo, hi, a, b, i);
      var j2 := Source(s, t, lo, hi, c, d, j);
      assert Le(cmp, s[i2], s[j2]);
    }
  }

  /** Where an element of a range that contains the rearranged one, or misses it, was before. */
  lemma Source<T>(s: seq<T>, t: seq<T>, lo: nat, hi: nat, a: nat, b: nat, i: nat) returns (i2: nat)
    requires Rearranged(s, t, lo, hi) && a <= i < b <= |s|
    requires (a <= lo && hi <= b) || hi <= a || b <= lo
    ensures a <= i2 < b && |t| == |s| && t[i] == s[i2]
  {
    hide Rearranged;
    if lo <= i < hi {
      i2 := ComesFrom(s, t, lo, hi, i);
    } else {
      i2 := i;
      Elsewhere(s, t, lo, hi, i);
    }
  }

  lemma StillSorted<T>(cmp: (T, T) -> int, s: seq<T>, t: seq<T>, lo: nat, hi: nat, a: nat, b: nat)
    requires Rearranged(s, t, lo, hi) && Sorted(cmp, s, a, b) && b <= |s| && (hi <= a || b <= lo)
    ensures Sorted(cmp, t, a, b)
  {
    hide Rearranged, Le;
    forall i, j | a <= i < j < b && j < |t| ensures Le(cmp, t[i], t[j]) {
      Elsewhere(s, t, lo, hi, i);
      Elsewhere(s, t, lo, hi, j);
    }
  }
}
