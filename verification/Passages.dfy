/** Walks over cells of a grid, and sets of cells grown by hanging one cell at a time on another: trees. */
module Passages {
  import opened Sequences

  datatype Cell = Cell(r: int, c: int)

  predicate Beside(a: Cell, b: Cell)
  {
    || (a.r == b.r && (a.c == b.c + 1 || b.c == a.c + 1))
    || (a.c == b.c && (a.r == b.r + 1 || b.r == a.r + 1))
  }

  /** Of the cells of s, u and no other is beside v, which is not one of them. */
  ghost predicate HangsBy(s: seq<Cell>, v: Cell, u: Cell)
  {
    v !in s && u in s && Beside(u, v) && forall w :: w in s && Beside(w, v) ==> w == u
  }

  ghost predicate LastHangs(s: seq<Cell>, u: Cell)
  {
    s != [] && HangsBy(s[..|s| - 1], s[|s| - 1], u)
  }

  ghost predicate Grown(s: seq<Cell>)
  {
    s != [] && (|s| > 1 ==> Grown(s[..|s| - 1]) && exists u :: LastHangs(s, u))
  }

  ghost predicate Walk(s: seq<Cell>, p: seq<Cell>)
  {
    && p != [] && (forall k :: 0 <= k < |p| ==> p[k] in s)
    && (forall k :: 0 < k < |p| ==> Beside(p[k - 1], p[k]))
  }

  /** A walk through cells of s from a to b that never meets itself. */
  ghost predicate Path(s: seq<Cell>, p: seq<Cell>, a: Cell, b: Cell)
  {
    Walk(s, p) && Distinct(p) && p[0] == a && p[|p| - 1] == b
  }

  // ---- one path, and only one -------------------------------------------------------------------------------

  lemma GrownBy(s: seq<Cell>) returns (t: seq<Cell>, v: Cell, u: Cell)
    requires Grown(s) && |s| > 1
    ensures s == t + [v] && Grown(t) && HangsBy(t, v, u)
  {
    t, v := s[..|s| - 1], s[|s| - 1];
    u :| LastHangs(s, u);
  }

  lemma Grow(s: seq<Cell>, v: Cell, u: Cell)
    requires Grown(s) && HangsBy(s, v, u)
    ensures Grown(s + [v])
  {
    assert (s + [v])[..|s|] == s;
    assert LastHangs(s + [v], u);
  }

  /** A path that begins with the cell that hangs by u goes on to u, and never comes back. */
  lemma FromLeaf(t: seq<Cell>, v: Cell, u: Cell, p: seq<Cell>, b: Cell)
    requires HangsBy(t, v, u) && Path(t + [v], p, v, b) && b != v
    ensures |p| > 1 && p == [v] + p[1..] && Path(t, p[1..], u, b)
  {
    assert Beside(p[0], p[1]) && p[1] in t + [v] && p[1] != p[0];
    assert Beside(p[1], v) && p[1] in t;
    forall k | 0 <= k < |p| - 1 ensures p[1..][k] in t {
      assert p[k + 1] != p[0];
    }
  }

  lemma ToLeaf(t: seq<Cell>, v: Cell, u: Cell, p: seq<Cell>, a: Cell)
    requires HangsBy(t, v, u) && Path(t + [v], p, a, v) && a != v
    ensures |p| > 1 && p == p[..|p| - 1] + [v] && Path(t, p[..|p| - 1], a, u)
  {
    var n := |p| - 1;
    assert Beside(p[n - 1], p[n]) && p[n - 1] in t + [v] && p[n - 1] != p[n];
    forall k | 0 <= k < n ensures p[..n][k] in t {
      assert p[k] != p[n];
    }
  }

  lemma SameOnBothSides(t: seq<Cell>, v: Cell, u: Cell, p: seq<Cell>, k: nat)
    requires HangsBy(t, v, u) && Walk(t + [v], p) && 0 < k < |p| - 1 && p[k] == v
    ensures (p[k - 1] == v || p[k - 1] == u) && (p[k + 1] == v || p[k + 1] == u)
  {
    assert Beside(p[k - 1], p[k]) && Beside(p[k], p[k + 1]);
    assert p[k - 1] in t + [v] && p[k + 1] in t + [v];
  }

  /** A path between other cells does not go through it. */
  lemma PastLeaf(t: seq<Cell>, v: Cell, u: Cell, p: seq<Cell>, a: Cell, b: Cell)
    requires HangsBy(t, v, u) && Path(t + [v], p, a, b) && a != v && b != v
    ensures Path(t, p, a, b)
  {
    forall k | 0 <= k < |p| ensures p[k] in t {
      if p[k] == v {
        SameOnBothSides(t, v, u, p, k);
        assert false;
      }
    }
  }

  lemma AtOnce(s: seq<Cell>, p: seq<Cell>, a: Cell)
    requires Path(s, p, a, a)
    ensures p == [a]
  {
    assert !(0 < |p| - 1);
  }

  /** Between two cells of a grown set there is at most one path. */
  lemma {:induction false} OnePath(s: seq<Cell>, a: Cell, b: Cell, p: seq<Cell>, q: seq<Cell>)
    requires Grown(s) && Path(s, p, a, b) && Path(s, q, a, b)
    ensures p == q
    decreases |s|
  {
    if a == b {
      AtOnce(s, p, a);
      AtOnce(s, q, a);
    } else if |s| == 1 {
      assert false;
    } else {
      var t, v, u := GrownBy(s);
      if a == v {
        FromLeaf(t, v, u, p, b);
        FromLeaf(t, v, u, q, b);
        OnePath(t, u, b, p[1..], q[1..]);
      } else if b == v {
        ToLeaf(t, v, u, p, a);
        ToLeaf(t, v, u, q, a);
        OnePath(t, a, u, p[..|p| - 1], q[..|q| - 1]);
      } else {
        PastLeaf(t, v, u, p, a, b);
        PastLeaf(t, v, u, q, a, b);
        OnePath(t, a, b, p, q);
      }
    }
  }

  function Backwards(p: seq<Cell>): (q: seq<Cell>)
    ensures |q| == |p| && forall k :: 0 <= k < |p| ==> q[k] == p[|p| - 1 - k]
  {
    seq(|p|, k requires 0 <= k < |p| => p[|p| - 1 - k])
  }

  lemma PathBackwards(s: seq<Cell>, p: seq<Cell>, a: Cell, b: Cell)
    requires Path(s, p, a, b)
    ensures Path(s, Backwards(p), b, a)
  {
    var q, n := Backwards(p), |p|;
    forall k | 0 < k < n ensures Beside(q[k - 1], q[k]) {
      assert Beside(p[n - 1 - k], p[n - k]);
    }
    forall i, j | 0 <= i < j < n ensures q[i] != q[j] {
      assert p[n - 1 - j] != p[n - 1 - i];
    }
  }

  /** And there is one. */
  lemma {:induction false} Connected(s: seq<Cell>, a: Cell, b: Cell) returns (p: seq<Cell>)
    requires Grown(s) && a in s && b in s
    ensures Path(s, p, a, b)
    decreases |s|
  {
    hide Path, HangsBy;
    if a == b {
      p := [a];
      AlreadyThere(s, a);
    } else {
      var t, v, u := GrownBy(s);
      HangsOn(t, v, u);
      if a == v {
        p := Connected(t, u, b);
        WithLeaf(t, v, u, p, b);
        p := [v] + p;
      } else if b == v {
        p := Connected(t, a, u);
        PathBackwards(t, p, a, u);
        WithLeaf(t, v, u, Backwards(p), a);
        p := [v] + Backwards(p);
        PathBackwards(s, p, v, a);
        p := Backwards(p);
      } else {
        p := Connected(t, a, b);
        MoreCells(t, v, p, a, b);
      }
    }
  }

  lemma HangsOn(t: seq<Cell>, v: Cell, u: Cell)
    requires HangsBy(t, v, u)
    ensures u in t && forall x :: x in t + [v] ==> x == v || x in t
  {
  }

  lemma AlreadyThere(s: seq<Cell>, a: Cell)
    requires a in s
    ensures Path(s, [a], a, a)
  {
  }

  lemma WithLeaf(t: seq<Cell>, v: Cell, u: Cell, p: seq<Cell>, b: Cell)
    requires HangsBy(t, v, u) && Path(t, p, u, b)
    ensures Path(t + [v], [v] + p, v, b)
  {
    var q := [v] + p;
    forall k | 0 < k < |q| ensures Beside(q[k - 1], q[k]) {
      if k > 1 { assert Beside(p[k - 2], p[k - 1]); }
    }
  }

  lemma MoreCells(t: seq<Cell>, v: Cell, p: seq<Cell>, a: Cell, b: Cell)
    requires Path(t, p, a, b)
    ensures Path(t + [v], p, a, b)
  {
  }

  /** Every walk goes at least as far as some path between its ends. */
  lemma {:induction false} Shortcut(s: seq<Cell>, w: seq<Cell>) returns (p: seq<Cell>)
    requires Walk(s, w)
    ensures Path(s, p, w[0], w[|w| - 1]) && |p| <= |w|
    decreases |w|
  {
    if Distinct(w) {
      p := w;
    } else {
      var i, j :| 0 <= i < j < |w| && w[i] == w[j];
      var x := w[..i] + w[j..];
      forall k | 0 < k < |x| ensures Beside(x[k - 1], x[k]) {
        if k < i {
        } else if k == i {
          assert Beside(w[i - 1], w[i]);
        } else {
          assert Beside(w[j + (k - i) - 1], w[j + (k - i)]);
        }
      }
      p := Shortcut(s, x);
    }
  }

  /** In a grown set the path between two cells is also the shortest walk between them. */
  lemma PathIsShortest(s: seq<Cell>, p: seq<Cell>, w: seq<Cell>)
    requires Grown(s) && Walk(s, w) && Path(s, p, w[0], w[|w| - 1])
    ensures |p| <= |w|
  {
    var q := Shortcut(s, w);
    OnePath(s, w[0], w[|w| - 1], p, q);
  }

  /** A set of cells closed under steps holds the end of every walk whose start it holds. */
  lemma {:induction false} StaysInside(s: seq<Cell>, f: seq<Cell>, p: seq<Cell>, k: nat)
    requires Walk(s, p) && k < |p| && p[0] in f
    requires forall x, y :: x in f && y in s && Beside(x, y) ==> y in f
    ensures p[k] in f
  {
    if k == 0 {
    } else {
      StaysInside(s, f, p, k - 1);
      assert Beside(p[k - 1], p[k]);
    }
  }

  // ---- counting ---------------------------------------------------------------------------------------------

  /** Distinct numbers below n are at most n of them. */
  lemma {:induction false} AtMost(l: seq<nat>, n: nat)
    requires Distinct(l) && forall k :: 0 <= k < |l| ==> l[k] < n
    ensures |l| <= n
    decreases n
  {
    if n == 0 {
    } else if n - 1 in l {
      var k :| 0 <= k < |l| && l[k] == n - 1;
      var m := l[..k] + l[k + 1..];
      forall i | 0 <= i < |m| ensures m[i] < n - 1 {
        var j := if i < k then i else i + 1;
        assert m[i] == l[j] && l[j] != l[k];
      }
      AtMost(m, n - 1);
    } else {
      AtMost(l, n - 1);
    }
  }
}
