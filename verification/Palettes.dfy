/** The colours of a picture's blocks as numbers in a palette: one of 256, or banks of 16 the blocks share. */
module Palettes {
  import opened Powers
  import opened Sequences

  function Colours(b: seq<int>): set<int>
  {
    set c | c in b && c >= 0
  }

  /** All the picture's colours. */
  function AllColours(blocks: seq<seq<int>>): set<int>
  {
    set i, c | 0 <= i < |blocks| && c in Colours(blocks[i]) :: c
  }

  /** The colours of l stand in it as they first appear in the block. */
  ghost predicate AsTheyAppear(l: seq<int>, b: seq<int>)
  {
    && (forall i :: 0 <= i < |l| ==> l[i] in b)
    && (forall i, j :: 0 <= i < j < |l| ==> l[i] in b && l[j] in b && IndexOf(b, l[i]) < IndexOf(b, l[j]))
  }

  /** Adds the block's colours to a list, those that are new in the order they appear in. */
  method Listed(list0: seq<int>, b: seq<int>) returns (list: seq<int>)
    requires Distinct(list0)
    ensures Distinct(list) && (forall c :: c in list <==> c in list0 || c in Colours(b))
    ensures list0 <= list && AsTheyAppear(list[|list0|..], b)
  {
    list := list0;
    for k := 0 to |b|
      invariant Distinct(list) && (forall c :: c in list <==> c in list0 || (c in b[..k] && c >= 0)) && list0 <= list
      invariant AsTheyAppear(list[|list0|..], b) && forall c :: c in list[|list0|..] ==> c in b[..k]
    {
      assert b[..k + 1] == b[..k] + [b[k]];
      if b[k] >= 0 && b[k] !in list {
        NextToAppear(list[|list0|..], b, k);
        assert (list + [b[k]])[|list0|..] == list[|list0|..] + [b[k]];
        list := list + [b[k]];
      }
    }
    assert b[..|b|] == b;
  }

  lemma NextToAppear(l: seq<int>, b: seq<int>, k: nat)
    requires k < |b| && AsTheyAppear(l, b) && b[k] !in b[..k] && forall c :: c in l ==> c in b[..k]
    ensures AsTheyAppear(l + [b[k]], b)
  {
    IndexIs(b, b[k], k);
    forall i | 0 <= i < |l| ensures l[i] in b && IndexOf(b, l[i]) < k {
      assert l[i] in l;
      var j :| 0 <= j < k && b[..k][j] == l[i];
      IndexLeast(b, l[i], j);
    }
  }

  // ---- banks ------------------------------------------------------------------------------------------------

  datatype Shared = Shared(banks: seq<seq<int>>, bankOf: seq<nat>) | CrowdedBlock(block: nat) | TooManyBanks(count: nat)

  /** Every block finds its colours in its bank, and no bank holds more than fifteen. */
  ghost predicate Shares(blocks: seq<seq<int>>, banks: seq<seq<int>>, bankOf: seq<nat>)
  {
    && |bankOf| == |blocks| && (forall n :: 0 <= n < |banks| ==> |banks[n]| <= 15 && Distinct(banks[n]))
    && (forall i :: 0 <= i < |blocks| ==> bankOf[i] < |banks| && Colours(blocks[i]) <= Members(banks[bankOf[i]]))
  }

  function Members(l: seq<int>): set<int>
  {
    set c | c in l
  }

  ghost predicate Housed(blocks: seq<seq<int>>, banks: seq<set<int>>, bankOf: seq<nat>, i: nat)
  {
    i < |blocks| && i < |bankOf| && bankOf[i] < |banks| && Colours(blocks[i]) <= banks[bankOf[i]]
  }

  predicate HasRoom(bank: set<int>, colours: set<int>)
  {
    |bank + colours| <= 15
  }

  /** Of the first k banks with room for the colours the one that has the most of them, the first of several. */
  ghost predicate Best(banks: seq<set<int>>, colours: set<int>, k: nat, best: int)
  {
    && k <= |banks| && -1 <= best < k
    && (best < 0 ==> forall n :: 0 <= n < k ==> !HasRoom(banks[n], colours))
    && (best >= 0 ==> HasRoom(banks[best], colours))
    && (best >= 0 ==> forall n :: 0 <= n < k && HasRoom(banks[n], colours) ==>
          && |colours * banks[n]| <= |colours * banks[best]|
          && (n < best ==> |colours * banks[n]| < |colours * banks[best]|))
  }

  /** The colours go to the bank with room for them that has the most of them already, or else to a new one. */
  method BestBank(colours: set<int>, banks0: seq<set<int>>) returns (banks: seq<set<int>>, best: nat)
    requires |colours| <= 15
    ensures best < |banks| && Best(banks0, colours, |banks0|, if best < |banks0| then best else -1)
    ensures banks == if best < |banks0| then banks0[best := banks0[best] + colours] else banks0 + [colours]
  {
    banks := banks0;
    var chosen, bestShared := -1, -1;
    for n := 0 to |banks|
      invariant Best(banks, colours, n, chosen) && bestShared == if chosen < 0 then -1 else |colours * banks[chosen]|
    {
      var shared, added := |colours * banks[n]|, |colours - banks[n]|;
      Added(banks[n], colours);
      if |banks[n]| + added <= 15 && shared > bestShared {
        chosen := n;
        bestShared := shared;
      }
    }
    if chosen < 0 {
      banks := banks + [{}];
      chosen := |banks| - 1;
      assert {} + colours == colours;
    }
    best := chosen;
    banks := banks[best := banks[best] + colours];
  }

  lemma Added(s: set<int>, t: set<int>)
    ensures |s + t| == |s| + |t - s|
  {
    assert s + t == s + (t - s);
  }

  /** Banks of the picture's colours, none too large, of which no two could be one. */
  ghost predicate Sensible(blocks: seq<seq<int>>, banks: seq<set<int>>)
  {
    && (forall n :: 0 <= n < |banks| ==> |banks[n]| <= 15 && banks[n] <= AllColours(blocks))
    && (forall n, m :: 0 <= n < m < |banks| ==> !HasRoom(banks[n], banks[m]))
  }

  /** Another block housed: the other banks are as they were, and still no two of them fit together. */
  lemma BankGrown(blocks: seq<seq<int>>, banks: seq<set<int>>, colours: set<int>, more: seq<set<int>>, best: nat)
    requires Sensible(blocks, banks) && |colours| <= 15 && colours <= AllColours(blocks)
    requires best < |more| && Best(banks, colours, |banks|, if best < |banks| then best else -1)
    requires more == if best < |banks| then banks[best := banks[best] + colours] else banks + [colours]
    ensures Sensible(blocks, more) && |banks| <= |more| && colours <= more[best]
    ensures forall n :: 0 <= n < |banks| ==> banks[n] <= more[n]
  {
    hide AllColours;
    forall n, m | 0 <= n < m < |more| ensures !HasRoom(more[n], more[m]) {
      if m < |banks| {
        MoreColours(banks[n] + banks[m], more[n] + more[m]);
      } else {
        assert more[n] == banks[n] && more[m] == colours;
      }
    }
  }

  lemma MoreColours(s: set<int>, t: set<int>)
    requires s <= t
    ensures |s| <= |t|
  {
    assert t == s + (t - s);
  }

  lemma ColoursOfOne(blocks: seq<seq<int>>, i: nat)
    requires i < |blocks|
    ensures Colours(blocks[i]) <= AllColours(blocks)
  {
  }

  /** The blocks named in `done` have their banks. */
  ghost predicate AllHoused(blocks: seq<seq<int>>, banks: seq<set<int>>, bankOf: seq<nat>, done: seq<nat>)
  {
    forall i :: i in done ==> Housed(blocks, banks, bankOf, i)
  }

  lemma OneMoreHoused(blocks: seq<seq<int>>, banks: seq<set<int>>, bankOf: seq<nat>, more: seq<set<int>>, best: nat,
                      done: seq<nat>, i: nat)
    requires i < |blocks| == |bankOf| && best < |more| && Colours(blocks[i]) <= more[best]
    requires |banks| <= |more| && forall n :: 0 <= n < |banks| ==> banks[n] <= more[n]
    requires AllHoused(blocks, banks, bankOf, done)
    ensures AllHoused(blocks, more, bankOf[i := best], done + [i])
  {
    hide Colours;
    forall j | j in done + [i] ensures Housed(blocks, more, bankOf[i := best], j) {
      if j != i {
        assert Housed(blocks, banks, bankOf, j);
        assert banks[bankOf[j]] <= more[bankOf[j]];
      }
    }
  }

  /** Gives the blocks their banks in the order `order` names them. */
  method HouseAll(blocks: seq<seq<int>>, order: seq<nat>) returns (banks: seq<set<int>>, bankOf: seq<nat>)
    requires forall i :: i in order ==> i < |blocks| && |Colours(blocks[i])| <= 15
    ensures Sensible(blocks, banks) && |bankOf| == |blocks| && AllHoused(blocks, banks, bankOf, order)
  {
    hide Best, Housed, Colours, HasRoom, AllColours;
    banks := [];
    bankOf := seq(|blocks|, _ => 0);
    hide Sensible, AllHoused;
    NoneHoused(blocks, bankOf);
    for t := 0 to |order|
      invariant Sensible(blocks, banks) && |bankOf| == |blocks| && AllHoused(blocks, banks, bankOf, order[..t])
    {
      var i := order[t];
      assert i in order;
      var more, best := BestBank(Colours(blocks[i]), banks);
      ColoursOfOne(blocks, i);
      BankGrown(blocks, banks, Colours(blocks[i]), more, best);
      OneMoreHoused(blocks, banks, bankOf, more, best, order[..t], i);
      assert order[..t + 1] == order[..t] + [i];
      banks, bankOf := more, bankOf[i := best];
    }
    assert order[..|order|] == order;
  }

  lemma NoneHoused(blocks: seq<seq<int>>, bankOf: seq<nat>)
    ensures Sensible(blocks, []) && AllHoused(blocks, [], bankOf, [])
  {
  }

  /** The colours go into that many banks, and no two of these could be one. */
  ghost predicate Overflowing(blocks: seq<seq<int>>, count: nat)
  {
    exists banks: seq<set<int>> :: |banks| == count && Sensible(blocks, banks)
  }

  lemma SmallBanks(blocks: seq<seq<int>>, banks: seq<set<int>>)
    requires Sensible(blocks, banks)
    ensures Overflowing(blocks, |banks|) && forall n :: 0 <= n < |banks| ==> |banks[n]| <= 15
  {
    hide AllColours;
  }

  ghost predicate ListOf(l: seq<int>, s: set<int>)
  {
    Distinct(l) && forall c :: c in l ==> c in s
  }

  /** The banks as lists, each bank's colours as they appear. */
  method ListBanks(blocks: seq<seq<int>>, banks: seq<set<int>>, bankOf: seq<nat>) returns (lists: seq<seq<int>>)
    requires |bankOf| == |blocks| && forall i :: 0 <= i < |blocks| ==> Housed(blocks, banks, bankOf, i)
    requires forall n :: 0 <= n < |banks| ==> |banks[n]| <= 15
    ensures |lists| == |banks| && Shares(blocks, lists, bankOf)
  {
    hide Distinct, AsTheyAppear;
    lists := seq(|banks|, _ => []);
    EmptyList();
    for i := 0 to |blocks|
      invariant |lists| == |banks| && forall n :: 0 <= n < |banks| ==> ListOf(lists[n], banks[n])
      invariant forall j :: 0 <= j < i ==> bankOf[j] < |lists| && Colours(blocks[j]) <= Members(lists[bankOf[j]])
    {
      assert Housed(blocks, banks, bankOf, i);
      var n := bankOf[i];
      var list := Listed(lists[n], blocks[i]);
      lists := lists[n := list];
    }
    forall n | 0 <= n < |banks| ensures |lists[n]| <= 15 && Distinct(lists[n]) {
      ListSize(lists[n], banks[n]);
    }
    forall i | 0 <= i < |blocks| ensures bankOf[i] < |banks| {
      assert Housed(blocks, banks, bankOf, i);
    }
  }

  lemma ListSize(l: seq<int>, s: set<int>)
    requires ListOf(l, s)
    ensures |l| <= |s| && Distinct(l)
  {
    assert forall c :: c in l ==> c in s;
    DistinctSize(l, s);
  }

  lemma EmptyList()
    ensures Distinct<int>([])
  {
  }

  method ShareBanks(blocks: seq<seq<int>>, order: seq<nat>, maxBanks: nat) returns (r: Shared)
    requires forall i :: 0 <= i < |blocks| ==> i in order
    requires forall i :: i in order ==> i < |blocks|
    ensures r.CrowdedBlock? <==> exists i :: 0 <= i < |blocks| && |Colours(blocks[i])| > 15
    ensures r.Shared? ==> Shares(blocks, r.banks, r.bankOf) && |r.banks| <= maxBanks
    ensures r.TooManyBanks? ==> r.count > maxBanks && Overflowing(blocks, r.count)
  {
    hide Sensible, Overflowing, Shares, Housed, Colours;
    for i := 0 to |blocks|
      invariant forall j :: 0 <= j < i ==> |Colours(blocks[j])| <= 15
    {
      if |Colours(blocks[i])| > 15 {
        return CrowdedBlock(i);
      }
    }
    var banks, bankOf := HouseAll(blocks, order);
    SmallBanks(blocks, banks);
    if |banks| > maxBanks {
      return TooManyBanks(|banks|);
    }
    var lists := ListBanks(blocks, banks, bankOf);
    r := Shared(lists, bankOf);
  }

  // ---- numbers in a palette ---------------------------------------------------------------------------------

  /** A block's colours as numbers in a list of them, from 1; 0 where it is clear. */
  function Numbered(b: seq<int>, list: seq<int>): (numbers: seq<nat>)
    requires Colours(b) <= Members(list)
    ensures |numbers| == |b|
    ensures forall k :: 0 <= k < |b| ==>
      numbers[k] <= |list| && if b[k] < 0 then numbers[k] == 0 else numbers[k] > 0 && list[numbers[k] - 1] == b[k]
  {
    seq(|b|, k requires 0 <= k < |b| =>
      if b[k] < 0 then 0 else assert b[k] in Colours(b) && b[k] in Members(list); IndexOf(list, b[k]) + 1)
  }

  /** The colour a number stands for: clear for 0, else the palette's, in a bank of 16 at 4 bits a pixel. */
  function Looks(palette: seq<int>, bpp: nat, bank: nat, number: nat): int
  {
    var k := if bpp == 8 then number else 16 * bank + number;
    if number == 0 || k >= |palette| then -1 else palette[k]
  }

  datatype Indexed = Indexed(palette: seq<int>, indices: seq<seq<nat>>, bankOf: seq<nat>)
    | BadBlock(block: nat) | BadBanks(count: nat) | BadColours(count: nat)

  /** Each block's numbers stand for its colours, and fit the bits a pixel has. */
  ghost predicate Reproduces(blocks: seq<seq<int>>, bpp: nat, x: Indexed)
  {
    && x.Indexed? && |x.indices| == |blocks| && |x.bankOf| == |blocks|
    && forall i :: 0 <= i < |blocks| ==> Stands(blocks[i], x.palette, bpp, x.bankOf[i], x.indices[i])
  }

  ghost predicate Stands(b: seq<int>, palette: seq<int>, bpp: nat, bank: nat, numbers: seq<nat>)
  {
    |numbers| == |b| && forall k :: 0 <= k < |b| ==>
      numbers[k] < (if bpp == 8 then 256 else 16) && (b[k] >= -1 ==> Looks(palette, bpp, bank, numbers[k]) == b[k])
  }

  lemma {:induction false} MembersSize(l: seq<int>)
    requires Distinct(l)
    ensures |Members(l)| == |l|
    decreases |l|
  {
    if l != [] {
      var rest := l[..|l| - 1];
      MembersSize(rest);
      assert l == rest + [l[|l| - 1]];
      assert l[|l| - 1] !in rest;
      assert Members(l) == Members(rest) + {l[|l| - 1]};
    } else {
      assert Members(l) == {};
    }
  }

  lemma OnlyThese(blocks: seq<seq<int>>, colours: seq<int>)
    requires forall j :: 0 <= j < |blocks| ==> Colours(blocks[j]) <= Members(colours)
    requires forall c :: c in colours ==> c in AllColours(blocks)
    ensures Members(colours) == AllColours(blocks)
  {
    hide Colours;
    forall c | c in AllColours(blocks) ensures c in Members(colours) {
      var j :| 0 <= j < |blocks| && c in Colours(blocks[j]);
    }
    forall c | c in Members(colours) ensures c in AllColours(blocks) {
      assert c in colours;
    }
    assert Members(colours) == AllColours(blocks);
  }

  method Index8(blocks: seq<seq<int>>) returns (r: Indexed)
    ensures r.Indexed? ==>
      Reproduces(blocks, 8, r) && |r.palette| == 256 && forall i :: 0 <= i < |blocks| ==> r.bankOf[i] == 0
    ensures r.BadColours? <==> |AllColours(blocks)| > 255
    ensures r.Indexed? || r.BadColours?
  {
    var colours: seq<int> := [];
    for i := 0 to |blocks|
      invariant Distinct(colours) && forall j :: 0 <= j < i ==> Colours(blocks[j]) <= Members(colours)
      invariant forall c :: c in colours ==> c in AllColours(blocks)
    {
      colours := Listed(colours, blocks[i]);
    }
    MembersSize(colours);
    OnlyThese(blocks, colours);
    if |colours| > 255 {
      return BadColours(|colours|);
    }
    var palette := [0] + colours;
    while |palette| < 256
      invariant |colours| < |palette| <= 256 && forall k :: 0 <= k < |colours| ==> palette[k + 1] == colours[k]
    {
      palette := palette + [0];
    }
    var indices: seq<seq<nat>> := [];
    for i := 0 to |blocks|
      invariant |indices| == i && forall j :: 0 <= j < i ==> Stands(blocks[j], palette, 8, 0, indices[j])
    {
      indices := indices + [Numbered(blocks[i], colours)];
    }
    r := Indexed(palette, indices, seq(|blocks|, _ => 0));
  }

  /** Bank after bank, each a clear colour, its own, and padding up to 16. */
  ghost predicate Banked(palette: seq<int>, banks: seq<seq<int>>, done: nat)
  {
    && done <= |banks| && |palette| == 16 * done
    && forall n, k :: 0 <= n < done && 0 <= k < |banks[n]| && k < 15 ==> palette[16 * n + 1 + k] == banks[n][k]
  }

  method BanksPalette(banks: seq<seq<int>>) returns (palette: seq<int>)
    requires forall n :: 0 <= n < |banks| ==> |banks[n]| <= 15
    ensures |palette| == if banks == [] then 16 else 16 * |banks|
    ensures banks != [] ==> Banked(palette, banks, |banks|)
  {
    palette := [];
    for n := 0 to |banks|
      invariant Banked(palette, banks, n)
    {
      ghost var before := palette;
      palette := palette + [0] + banks[n];
      while |palette| % 16 != 0
        invariant 16 * n < |palette| <= 16 * n + 16 && before + [0] + banks[n] <= palette
        decreases 16 * n + 16 - |palette|
      {
        palette := palette + [0];
      }
      BankAdded(before, palette, banks, n);
    }
    if palette == [] {
      palette := seq(16, _ => 0);
    }
  }

  lemma BankAdded(before: seq<int>, palette: seq<int>, banks: seq<seq<int>>, n: nat)
    requires n < |banks| && Banked(before, banks, n) && before + [0] + banks[n] <= palette && |banks[n]| <= 15
    requires 16 * n < |palette| <= 16 * n + 16 && |palette| % 16 == 0
    ensures Banked(palette, banks, n + 1)
  {
    assert |palette| == 16 * (n + 1);
    forall m, k | 0 <= m < n + 1 && 0 <= k < |banks[m]| && k < 15 ensures palette[16 * m + 1 + k] == banks[m][k] {
      assert palette[16 * m + 1 + k] == (before + [0] + banks[n])[16 * m + 1 + k];
    }
  }

  method Index4(blocks: seq<seq<int>>, order: seq<nat>, maxBanks: nat) returns (r: Indexed)
    requires forall i :: 0 <= i < |blocks| ==> i in order
    requires forall i :: i in order ==> i < |blocks|
    ensures r.BadBlock? <==> exists i :: 0 <= i < |blocks| && |Colours(blocks[i])| > 15
    ensures r.Indexed? ==> Reproduces(blocks, 4, r) && forall i :: 0 <= i < |blocks| ==> r.bankOf[i] < maxBanks
    ensures !r.BadColours? && (r.BadBanks? ==> r.count > maxBanks && Overflowing(blocks, r.count))
  {
    var shared := ShareBanks(blocks, order, maxBanks);
    match shared
    case CrowdedBlock(i) => return BadBlock(i);
    case TooManyBanks(n) => return BadBanks(n);
    case Shared(banks, bankOf) =>
      var palette := BanksPalette(banks);
      var indices: seq<seq<nat>> := [];
      for i := 0 to |blocks|
        invariant |indices| == i && forall j :: 0 <= j < i ==> Stands(blocks[j], palette, 4, bankOf[j], indices[j])
      {
        var numbers := Numbered(blocks[i], banks[bankOf[i]]);
        BankLooks(blocks[i], palette, banks, bankOf[i], numbers);
        indices := indices + [numbers];
      }
      r := Indexed(palette, indices, bankOf);
  }

  lemma BankLooks(b: seq<int>, palette: seq<int>, banks: seq<seq<int>>, n: nat, numbers: seq<nat>)
    requires n < |banks| && Banked(palette, banks, |banks|) && Colours(b) <= Members(banks[n]) && |banks[n]| <= 15
    requires numbers == Numbered(b, banks[n])
    ensures Stands(b, palette, 4, n, numbers)
  {
    forall k | 0 <= k < |b| ensures numbers[k] < 16 && (b[k] >= -1 ==> Looks(palette, 4, n, numbers[k]) == b[k]) {
      if b[k] >= 0 {
        assert palette[16 * n + 1 + (numbers[k] - 1)] == banks[n][numbers[k] - 1];
      }
    }
  }

  method Index(blocks: seq<seq<int>>, order: seq<nat>, bpp: nat, maxBanks: nat) returns (r: Indexed)
    requires forall i :: 0 <= i < |blocks| ==> i in order
    requires forall i :: i in order ==> i < |blocks|
    requires (bpp == 4 || bpp == 8) && maxBanks > 0
    ensures r.Indexed? ==> Reproduces(blocks, bpp, r) && forall i :: 0 <= i < |blocks| ==> r.bankOf[i] < maxBanks
    ensures r.BadColours? <==> bpp == 8 && |AllColours(blocks)| > 255
    ensures r.BadBanks? ==> bpp == 4 && r.count > maxBanks && Overflowing(blocks, r.count)
    ensures r.BadBlock? <==> bpp == 4 && exists i :: 0 <= i < |blocks| && |Colours(blocks[i])| > 15
  {
    if bpp == 8 {
      r := Index8(blocks);
    } else {
      r := Index4(blocks, order, maxBanks);
    }
  }
}
