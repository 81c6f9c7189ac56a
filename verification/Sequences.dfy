/** What sequences of anything share. */
module Sequences {

  predicate Distinct<T(==)>(l: seq<T>)
  {
    forall i, j :: 0 <= i < j < |l| ==> l[i] != l[j]
  }

  /** Where c first stands. */
  function IndexOf<T(==)>(l: seq<T>, c: T): (k: nat)
    requires c in l
    ensures k < |l| && l[k] == c && c !in l[..k]
  {
    if l[0] == c then 0 else 1 + IndexOf(l[1..], c)
  }

  lemma IndexIs<T>(l: seq<T>, c: T, k: nat)
    requires k < |l| && l[k] == c && c !in l[..k]
    ensures IndexOf(l, c) == k
  {
    var i := IndexOf(l, c);
    assert i <= k <= i;
  }

  /** It stands no later than anywhere it does. */
  lemma IndexLeast<T>(l: seq<T>, c: T, k: nat)
    requires k < |l| && l[k] == c
    ensures IndexOf(l, c) <= k
  {
    var i := IndexOf(l, c);
    assert i <= k;
  }

  /** Distinct members of a set are no more than it has. */
  lemma {:induction false} DistinctSize<T>(l: seq<T>, s: set<T>)
    requires Distinct(l) && forall c :: c in l ==> c in s
    ensures |l| <= |s|
    decreases |l|
  {
    if l == [] {
    } else {
      var c := l[0];
      forall x | x in l[1..] ensures x in s - {c} {
        var k :| 0 <= k < |l[1..]| && l[1..][k] == x;
        assert l[k + 1] != l[0];
      }
      DistinctSize(l[1..], s - {c});
      assert |s - {c}| == |s| - 1;
    }
  }

  /** And all of them, when they are as many. */
  lemma DistinctAll<T>(l: seq<T>, s: set<T>, c: T)
    requires Distinct(l) && (forall x :: x in l ==> x in s) && |l| == |s| && c in s
    ensures c in l
  {
    if c !in l {
      DistinctSize(l + [c], s);
    }
  }
}
