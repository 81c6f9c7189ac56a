/** The payloads of used blocks, which no operation on the heap may touch. */
module HeapPayloads {
  import opened HeapShape
  import opened HeapHeaders

  /** The n bytes of the payload of the block at b are the same in both memories. */
  ghost predicate SamePayload(m: seq<nat>, m2: seq<nat>, b: nat, n: nat)
  {
    |m2| == |m| && forall w :: b + 8 <= w < b + 8 + n && w < |m| ==> m2[w] == m[w]
  }

  /** u is a used block before and after, of the same size and with the same contents. */
  ghost predicate KeepsAt(m: seq<nat>, h: Shape, m2: seq<nat>, g: Shape, u: nat)
  {
    && u in h.size && u in g.size && u !in h.free && u !in g.free && g.size[u] == h.size[u]
    && SamePayload(m, m2, u, h.size[u])
  }

  /** All blocks of K are kept. */
  ghost predicate Keeps(m: seq<nat>, h: Shape, m2: seq<nat>, g: Shape, K: set<nat>)
  {
    forall u :: u in K ==> KeepsAt(m, h, m2, g, u)
  }

  lemma KeepsAll(m: seq<nat>, h: Shape, K: set<nat>)
    requires K <= h.Used()
    ensures Keeps(m, h, m, h, K)
  {
  }

  lemma KeepsBoth(m: seq<nat>, h: Shape, m2: seq<nat>, h2: Shape, m3: seq<nat>, h3: Shape, K: set<nat>)
    requires Keeps(m, h, m2, h2, K) && Keeps(m2, h2, m3, h3, K)
    ensures Keeps(m, h, m3, h3, K)
  {
    forall u | u in K ensures KeepsAt(m, h, m3, h3, u) {
      assert KeepsAt(m, h, m2, h2, u) && KeepsAt(m2, h2, m3, h3, u);
    }
  }

  lemma KeepsFewer(m: seq<nat>, h: Shape, m2: seq<nat>, g: Shape, K: set<nat>, L: set<nat>)
    requires Keeps(m, h, m2, g, K) && L <= K
    ensures Keeps(m, h, m2, g, L)
  {
    hide KeepsAt;
  }

  /** The same blocks are used in both, with the same sizes. */
  ghost predicate Steady(h: Shape, g: Shape, K: set<nat>)
  {
    K <= h.Used() && K <= g.Used() && forall u :: u in K && u in h.size && u in g.size ==> g.size[u] == h.size[u]
  }

  /** Word w lies in no payload of K. */
  ghost predicate Outside(h: Shape, K: set<nat>, w: nat)
  {
    forall u :: u in K && u in h.size ==> !(u + 8 <= w < h.End(u))
  }

  /** The memories differ only outside the payloads of K. */
  ghost predicate DifferOutside(m: seq<nat>, m2: seq<nat>, h: Shape, K: set<nat>)
  {
    |m2| == |m| && forall w: nat :: w < |m| && m2[w] != m[w] ==> Outside(h, K, w)
  }

  lemma KeepsWrites(m: seq<nat>, m2: seq<nat>, h: Shape, g: Shape, K: set<nat>)
    requires Steady(h, g, K) && DifferOutside(m, m2, h, K)
    ensures Keeps(m, h, m2, g, K)
  {
    forall u | u in K ensures KeepsAt(m, h, m2, g, u) {
    }
  }

  lemma HeaderOutside(h: Shape, K: set<nat>, c: nat, w: nat)
    requires Tiles(h) && IsHeader(h, c) && (w == c || w == c + 4)
    ensures Outside(h, K, w)
  {
    hide Tiles, Fits, Rests, Clear, Shape.End;
    forall u | u in K && u in h.size ensures !(u + 8 <= w < h.End(u)) {
      InSpan(h, u);
      if c in h.size { InSpan(h, c); EightApart(h, u, c); }
    }
  }

  /** A header inside the span of another block would be in its payload. */
  lemma EightApart(h: Shape, u: nat, c: nat)
    requires Tiles(h) && u in h.size && c in h.size
    ensures c <= u || h.End(u) <= c
    ensures c < u ==> h.End(c) <= u
  {
    hide Fits, Rests;
    assert Clear(h, u, c) && Clear(h, c, u);
  }

  lemma InsideOutside(h: Shape, K: set<nat>, b: nat, w: nat)
    requires Tiles(h) && b in h.size && b !in K && b <= w < h.End(b)
    ensures Outside(h, K, w)
  {
    hide Tiles, Fits, Rests, Clear, Shape.End;
    forall u | u in K && u in h.size ensures !(u + 8 <= w < h.End(u)) {
      EightApart(h, u, b);
      EightApart(h, b, u);
    }
  }

  lemma AboveOutside(h: Shape, K: set<nat>, w: nat)
    requires Tiles(h) && w >= h.epi
    ensures Outside(h, K, w)
  {
    hide Tiles, Fits, Rests, Clear, Shape.End;
    forall u | u in K && u in h.size ensures !(u + 8 <= w < h.End(u)) {
      InSpan(h, u);
    }
  }

  /** Links of free blocks lie in no used payload. */
  lemma LinksOutside(m: seq<nat>, m2: seq<nat>, h: Shape, K: set<nat>, S: set<nat>)
    requires Tiles(h) && S <= h.size.Keys && S !! K && OnlyLinks(m, m2, S, h.epi)
    ensures DifferOutside(m, m2, h, K)
  {
    hide Tiles, Fits, Rests, Clear, Outside, Shape.End;
    forall w: nat | w < |m| && m2[w] != m[w] ensures Outside(h, K, w) {
      if w >= h.epi {
        AboveOutside(h, K, w);
      } else if w >= 8 && w - 8 in S {
        InSpan(h, w - 8);
        InsideOutside(h, K, w - 8, w);
      } else {
        InSpan(h, w - 12);
        InsideOutside(h, K, w - 12, w);
      }
    }
  }

  /** Unlinking or linking free blocks of S keeps every used block. */
  lemma LinksKeep(m: seq<nat>, m2: seq<nat>, h: Shape, K: set<nat>, S: set<nat>)
    requires Tiles(h) && S <= h.size.Keys && S !! K && OnlyLinks(m, m2, S, h.epi) && K <= h.Used()
    ensures Keeps(m, h, m2, h, K)
  {
    hide Tiles, OnlyLinks, DifferOutside, Keeps;
    LinksOutside(m, m2, h, K, S);
    KeepsWrites(m, m2, h, h, K);
  }
}
