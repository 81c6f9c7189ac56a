/** The maze of the tile demonstration: dug by a random walk, and the way through it found breadth first. */
module Maze {
  import opened Passages
  import opened Powers
  import opened Sequences

  /** The size of a maze. Rooms have odd coordinates; what lies between two of them can become a door. */
  datatype Grid = Grid(rows: nat, cols: nat)
  {
    predicate Fits()
    {
      rows % 2 == 1 && cols % 2 == 1 && rows >= 3 && cols >= 3 && rows * cols <= 0x8000
    }

    predicate Inner(x: Cell)
    {
      0 < x.r < rows - 1 && 0 < x.c < cols - 1
    }

    predicate Room(x: Cell)
    {
      Inner(x) && x.r % 2 == 1 && x.c % 2 == 1
    }

    function Code(x: Cell): int
    {
      x.r * cols + x.c
    }

    function Start(): Cell
    {
      Cell(1, 1)
    }

    function Goal(): Cell
    {
      Cell(rows - 2, cols - 2)
    }

    /** An open cell that is no room lies between two open rooms. */
    ghost predicate OpenedAt(s: seq<Cell>, x: Cell)
    {
      && Inner(x) && (x.r % 2 == 1 || x.c % 2 == 1)
      && (x.c % 2 == 0 ==> Cell(x.r, x.c - 1) in s && Cell(x.r, x.c + 1) in s)
      && (x.r % 2 == 0 ==> Cell(x.r - 1, x.c) in s && Cell(x.r + 1, x.c) in s)
    }

    ghost predicate Opened(s: seq<Cell>)
    {
      forall x :: x in s ==> OpenedAt(s, x)
    }

    /** What digging is for: a tree that spans every room. */
    ghost predicate Dug(s: seq<Cell>)
    {
      Grown(s) && Opened(s) && forall x :: Room(x) ==> x in s
    }
  }

  function Dr(d: nat): int
  {
    if d == 0 then -2 else if d == 1 then 2 else 0
  }

  function Dc(d: nat): int
  {
    if d == 2 then -2 else if d == 3 then 2 else 0
  }

  /** The room two places on, and the wall on the way to it. */
  function Room2(x: Cell, d: nat): Cell
  {
    Cell(x.r + Dr(d), x.c + Dc(d))
  }

  function Door(x: Cell, d: nat): Cell
  {
    Cell(x.r + Dr(d) / 2, x.c + Dc(d) / 2)
  }

  lemma Coded(g: Grid, x: Cell)
    requires 0 <= x.r < g.rows && 0 <= x.c < g.cols
    ensures 0 <= g.Code(x) < g.rows * g.cols && g.Code(x) / g.cols == x.r && g.Code(x) % g.cols == x.c
  {
    DivModUnique(g.Code(x), x.r, g.cols, x.c);
    MulMonotone(x.r + 1, g.rows, g.cols);
    Distribute(x.r, 1, g.cols);
    MulNonnegative(x.r, g.cols);
  }

  lemma MulNonnegative(x: nat, y: nat)
    ensures x * y >= 0
  {
  }

  // ---- digging ----------------------------------------------------------------------------------------------

  /** Opening a door and the room behind it adds two cells, each beside one open cell and no other. */
  lemma OpenTwo(g: Grid, s: seq<Cell>, here: Cell, d: nat)
    requires g.Fits() && Grown(s) && g.Opened(s) && here in s && g.Room(here) && d < 4
    requires g.Room(Room2(here, d)) && Room2(here, d) !in s
    ensures var w, n := Door(here, d), Room2(here, d);
      Grown(s + [w] + [n]) && g.Opened(s + [w] + [n]) && w !in s
  {
    hide Grown, HangsBy, Grid.OpenedAt, Dr, Dc;
    var w, n := Door(here, d), Room2(here, d);
    DoorHangs(g, s, here, d);
    Grow(s, w, here);
    RoomHangs(g, s, here, d);
    Grow(s + [w], n, w);
    var t := s + [w] + [n];
    forall x | x in t ensures g.OpenedAt(t, x) {
      if x in s {
        StillOpened(g, s, t, x);
      } else if x == w {
        DoorOpened(g, t, here, d);
      } else {
        RoomOpened(g, t, n);
      }
    }
    IsNew(s, w, here);
  }

  lemma IsNew(s: seq<Cell>, w: Cell, u: Cell)
    requires HangsBy(s, w, u)
    ensures w !in s
  {
  }

  lemma StillOpened(g: Grid, s: seq<Cell>, t: seq<Cell>, x: Cell)
    requires g.OpenedAt(s, x) && forall y :: y in s ==> y in t
    ensures g.OpenedAt(t, x)
  {
  }

  lemma DoorOpened(g: Grid, t: seq<Cell>, here: Cell, d: nat)
    requires g.Room(here) && g.Room(Room2(here, d)) && here in t && Room2(here, d) in t && d < 4
    ensures g.OpenedAt(t, Door(here, d))
  {
  }

  lemma RoomOpened(g: Grid, t: seq<Cell>, n: Cell)
    requires g.Room(n)
    ensures g.OpenedAt(t, n)
  {
  }

  lemma DoorHangs(g: Grid, s: seq<Cell>, here: Cell, d: nat)
    requires g.Fits() && g.Opened(s) && here in s && g.Room(here) && d < 4
    requires g.Room(Room2(here, d)) && Room2(here, d) !in s
    ensures HangsBy(s, Door(here, d), here)
  {
    hide Beside, Dr, Dc, Grid.OpenedAt, Door, Room2;
    var w := Door(here, d);
    DoorEnds(g, here, d);
    if w in s { DoorOpen(g, s, here, d); }
    forall x | x in s && Beside(x, w) ensures x == here {
      OddSomewhere(g, s, x);
      AtDoor(g, here, d, x);
    }
  }

  lemma DoorEnds(g: Grid, here: Cell, d: nat)
    requires g.Room(here) && d < 4
    ensures Beside(here, Door(here, d))
  {
  }

  lemma DoorOpen(g: Grid, s: seq<Cell>, here: Cell, d: nat)
    requires g.Opened(s) && Door(here, d) in s && g.Room(here) && d < 4
    ensures Room2(here, d) in s
  {
    assert g.OpenedAt(s, Door(here, d));
  }

  lemma OddSomewhere(g: Grid, s: seq<Cell>, x: Cell)
    requires g.Opened(s) && x in s
    ensures x.r % 2 == 1 || x.c % 2 == 1
  {
    assert g.OpenedAt(s, x);
  }

  /** Beside a door there are its two rooms, and pillars. */
  lemma AtDoor(g: Grid, here: Cell, d: nat, x: Cell)
    requires g.Room(here) && d < 4 && Beside(x, Door(here, d)) && (x.r % 2 == 1 || x.c % 2 == 1)
    ensures x == here || x == Room2(here, d)
  {
  }

  lemma RoomHangs(g: Grid, s: seq<Cell>, here: Cell, d: nat)
    requires g.Fits() && g.Opened(s) && here in s && g.Room(here) && d < 4
    requires g.Room(Room2(here, d)) && Room2(here, d) !in s
    ensures HangsBy(s + [Door(here, d)], Room2(here, d), Door(here, d))
  {
    var w, n := Door(here, d), Room2(here, d);
    forall x | x in s + [w] && Beside(x, n) ensures x == w {
      if x in s { BothEnds(g, s, x, n); }
    }
  }

  lemma BothEnds(g: Grid, s: seq<Cell>, x: Cell, n: Cell)
    requires g.Opened(s) && x in s && g.Room(n) && Beside(x, n)
    ensures n in s
  {
    assert g.OpenedAt(s, x);
  }

  /** What the digger keeps: a tree of rooms, those of them that still may have somewhere new to go on its path. */
  ghost predicate Digging(g: Grid, s: seq<Cell>, rooms: seq<Cell>, path: seq<Cell>)
  {
    && Grown(s) && g.Opened(s) && g.Start() in s
    && Distinct(rooms) && (forall x :: x in rooms <==> x in s && g.Room(x))
    && Distinct(path) && (forall x :: x in path ==> x in rooms)
    && (forall x :: x in rooms && x !in path ==> Exhausted(g, rooms, x))
  }

  /** Every room next to x has been reached. */
  ghost predicate Exhausted(g: Grid, rooms: seq<Cell>, x: Cell)
  {
    forall d: nat :: d < 4 && g.Room(Room2(x, d)) ==> Room2(x, d) in rooms
  }

  lemma DiggingStarts(g: Grid)
    requires g.Fits()
    ensures Digging(g, [g.Start()], [g.Start()], [g.Start()])
  {
  }

  lemma DiggingOn(g: Grid, s: seq<Cell>, rooms: seq<Cell>, path: seq<Cell>, here: Cell, d: nat)
    requires g.Fits() && Digging(g, s, rooms, path) && path != [] && d < 4 && here == path[|path| - 1]
    requires g.Room(Room2(here, d)) && Room2(here, d) !in s
    ensures var w, n := Door(here, d), Room2(here, d);
      Digging(g, s + [w] + [n], rooms + [n], path + [n])
  {
    hide Grown, Grid.Opened, Exhausted;
    assert here in rooms;
    OpenTwo(g, s, here, d);
    var n := Room2(here, d);
    DoorIsNoRoom(g, here, d);
    assert n !in rooms;
    forall x | x in rooms + [n] && x !in path + [n] ensures Exhausted(g, rooms + [n], x) {
      StillExhausted(g, rooms, n, x);
    }
  }

  lemma DoorIsNoRoom(g: Grid, here: Cell, d: nat)
    requires g.Room(here) && d < 4
    ensures !g.Room(Door(here, d))
  {
  }

  lemma StillExhausted(g: Grid, rooms: seq<Cell>, n: Cell, x: Cell)
    requires Exhausted(g, rooms, x)
    ensures Exhausted(g, rooms + [n], x)
  {
  }

  lemma DeadEnd(g: Grid, s: seq<Cell>, rooms: seq<Cell>, path: seq<Cell>, here: Cell)
    requires Digging(g, s, rooms, path) && path != [] && here == path[|path| - 1]
    requires forall d :: 0 <= d < 4 && g.Room(Room2(here, d)) ==> Room2(here, d) in s
    ensures Digging(g, s, rooms, path[..|path| - 1])
  {
    hide Grown, Grid.Opened;
    var shorter := path[..|path| - 1];
    assert path == shorter + [here];
  }

  /** At the end every room has been reached. */
  lemma {:induction false} Reached(g: Grid, s: seq<Cell>, rooms: seq<Cell>, x: Cell)
    requires g.Fits() && Digging(g, s, rooms, []) && g.Room(x)
    ensures x in s
    decreases x.r + x.c
  {
    hide Grown, Grid.Opened, Distinct;
    if x.r > 1 {
      var y := Cell(x.r - 2, x.c);
      Reached(g, s, rooms, y);
      assert Exhausted(g, rooms, y) && Room2(y, 1) == x;
    } else if x.c > 1 {
      var y := Cell(x.r, x.c - 2);
      Reached(g, s, rooms, y);
      assert Exhausted(g, rooms, y) && Room2(y, 3) == x;
    }
  }

  lemma AllReached(g: Grid, s: seq<Cell>, rooms: seq<Cell>)
    requires g.Fits() && Digging(g, s, rooms, [])
    ensures g.Dug(s)
  {
    forall x | g.Room(x) ensures x in s {
      Reached(g, s, rooms, x);
    }
  }

  /** There are (rows / 2) * (cols / 2) rooms: the stack never holds more. */
  lemma RoomsFit(g: Grid, l: seq<Cell>)
    requires g.Fits() && Distinct(l) && forall x :: x in l ==> g.Room(x)
    ensures |l| <= (g.rows / 2) * (g.cols / 2)
  {
    hide Grid.Room, Grid.Fits;
    var codes := seq(|l|, k requires 0 <= k < |l| => RoomNumber(g, l[k]));
    forall k | 0 <= k < |l| ensures 0 <= codes[k] < (g.rows / 2) * (g.cols / 2) {
      RoomNumbered(g, l[k], l[k]);
    }
    forall i, j | 0 <= i < j < |l| ensures codes[i] != codes[j] {
      RoomNumbered(g, l[i], l[j]);
    }
    AtMost(codes, (g.rows / 2) * (g.cols / 2));
  }

  /** The number of a room among the rooms. */
  function RoomNumber(g: Grid, x: Cell): nat
    requires g.Fits() && g.Room(x)
  {
    RoomNumbered(g, x, x);
    Grid(g.rows / 2, g.cols / 2).Code(Cell(x.r / 2, x.c / 2))
  }

  lemma RoomNumbered(g: Grid, x: Cell, y: Cell)
    requires g.Fits() && g.Room(x) && g.Room(y)
    ensures var half := Grid(g.rows / 2, g.cols / 2);
      var i, j := half.Code(Cell(x.r / 2, x.c / 2)), half.Code(Cell(y.r / 2, y.c / 2));
      0 <= i < (g.rows / 2) * (g.cols / 2) && (i == j ==> x == y)
  {
    var half := Grid(g.rows / 2, g.cols / 2);
    hide Grid.Code;
    Coded(half, Cell(x.r / 2, x.c / 2));
    Coded(half, Cell(y.r / 2, y.c / 2));
  }

  lemma CellsFit(g: Grid, l: seq<Cell>)
    requires g.Fits() && Distinct(l) && forall x :: x in l ==> g.Inner(x)
    ensures |l| <= g.rows * g.cols
  {
    var codes := seq(|l|, k requires 0 <= k < |l| => g.Code(l[k]));
    forall k | 0 <= k < |l| ensures 0 <= codes[k] < g.rows * g.cols {
      assert g.Inner(l[k]);
      Coded(g, l[k]);
    }
    forall i, j | 0 <= i < j < |l| ensures codes[i] != codes[j] {
      assert g.Inner(l[i]) && g.Inner(l[j]) && l[i] != l[j];
      Coded(g, l[i]);
      Coded(g, l[j]);
    }
    AtMost(codes, g.rows * g.cols);
  }

  // ---- searching --------------------------------------------------------------------------------------------

  function NextCell(x: Cell, d: nat): Cell
  {
    if d == 0 then Cell(x.r - 1, x.c) else if d == 1 then Cell(x.r + 1, x.c)
    else if d == 2 then Cell(x.r, x.c - 1) else Cell(x.r, x.c + 1)
  }

  function NextCode(g: Grid, code: int, d: nat): int
  {
    if d == 0 then code - g.cols else if d == 1 then code + g.cols else if d == 2 then code - 1 else code + 1
  }

  lemma NextCoded(g: Grid, x: Cell, d: nat)
    requires g.Inner(x)
    ensures g.Code(NextCell(x, d)) == NextCode(g, g.Code(x), d) && Beside(x, NextCell(x, d))
    ensures 0 <= NextCell(x, d).r < g.rows && 0 <= NextCell(x, d).c < g.cols
  {
    Distribute(x.r, 1, g.cols);
    Distribute(x.r - 1, 1, g.cols);
  }

  /** The cells found so far in the order of the queue, each beside an earlier one. */
  ghost predicate Chained(g: Grid, s: seq<Cell>, found: seq<Cell>, from: seq<nat>)
  {
    && found != [] && found[0] == g.Start() && Distinct(found) && |from| == |found|
    && (forall x :: x in found ==> x in s)
    && (forall k :: 0 < k < |found| ==> from[k] < k && Beside(found[from[k]], found[k]))
  }

  function At(l: seq<int>, p: int): int
  {
    if 0 <= p < |l| then l[p] else -1
  }

  ghost predicate Searching(g: Grid, s: seq<Cell>, found: seq<Cell>, from: seq<nat>, came: seq<int>, queue: seq<int>)
  {
    && Chained(g, s, found, from) && |came| == g.rows * g.cols && |queue| == g.rows * g.cols && |found| <= |queue|
    && (forall k :: 0 <= k < |found| ==> queue[k] == g.Code(found[k]))
    && (forall k :: 0 < k < |found| ==> CameFrom(g, came, found[k], found[from[k]]))
    && (forall x :: g.Inner(x) ==> (Marked(g, came, x) <==> x in found))
  }

  predicate CameFrom(g: Grid, came: seq<int>, y: Cell, x: Cell)
  {
    At(came, g.Code(y)) == g.Code(x)
  }

  predicate Marked(g: Grid, came: seq<int>, x: Cell)
  {
    At(came, g.Code(x)) >= 0
  }

  /** Everything beside a cell already taken from the queue has been found. */
  ghost predicate Taken(s: seq<Cell>, found: seq<Cell>, head: nat)
  {
    head <= |found| && forall k, y :: 0 <= k < head && y in s && Beside(found[k], y) ==> y in found
  }

  lemma SearchStarts(g: Grid, s: seq<Cell>, came: seq<int>, queue: seq<int>)
    requires g.Fits() && g.Dug(s) && |came| == g.rows * g.cols && |queue| == g.rows * g.cols
    requires queue != [] && queue[0] == g.Code(g.Start())
    requires forall p :: 0 <= p < |came| ==> came[p] == if p == g.Code(g.Start()) then p else -1
    ensures Searching(g, s, [g.Start()], [0], came, queue)
  {
    hide Grown, Grid.Opened;
    Coded(g, g.Start());
    forall x | g.Inner(x) ensures At(came, g.Code(x)) >= 0 <==> x in [g.Start()] {
      Coded(g, x);
    }
  }

  /** A cell seen for the first time goes to the back of the queue, and there is room for it. */
  lemma Finds(g: Grid, s: seq<Cell>, found: seq<Cell>, from: seq<nat>, came: seq<int>, queue: seq<int>, i: nat, y: Cell)
    requires g.Fits() && g.Opened(s) && Searching(g, s, found, from, came, queue)
    requires i < |found| && y in s && y !in found && Beside(found[i], y)
    ensures |found| < g.rows * g.cols && 0 <= g.Code(y) < |came|
    ensures Searching(g, s, found + [y], from + [i], came[g.Code(y) := g.Code(found[i])], queue[|found| := g.Code(y)])
  {
    hide Grid.Code, Grid.Opened, Beside, Grid.Inner, Grid.Start, CameFrom, Marked;
    var found2, from2 := found + [y], from + [i];
    AllInner(g, s, found2);
    CellsFit(g, found2);
    assert y in found2 && found[i] in found2;
    InnerCode(g, y);
    InnerCode(g, found[i]);
    var came2 := came[g.Code(y) := g.Code(found[i])];
    forall x | g.Inner(x) ensures Marked(g, came2, x) <==> x in found2 {
      Marks(g, came, x, y, found[i]);
    }
    forall k | 0 < k < |found2| ensures CameFrom(g, came2, found2[k], found2[from2[k]]) {
      assert found2[k] in found2;
      Marks(g, came, found2[k], y, found[i]);
      if k < |found| { KeepsFrom(g, came, found[k], found[from[k]], y, found[i]); }
    }
  }

  lemma Marks(g: Grid, came: seq<int>, x: Cell, y: Cell, via: Cell)
    requires g.Inner(x) && g.Inner(y) && g.Inner(via) && |came| == g.rows * g.cols && 0 <= g.Code(y) < |came|
    ensures Marked(g, came[g.Code(y) := g.Code(via)], x) <==> (x == y || Marked(g, came, x))
    ensures x == y ==> CameFrom(g, came[g.Code(y) := g.Code(via)], x, via)
  {
    InnerCode(g, via);
    OtherCode(g, x, y);
  }

  lemma KeepsFrom(g: Grid, came: seq<int>, x: Cell, from: Cell, y: Cell, via: Cell)
    requires g.Inner(x) && g.Inner(y) && |came| == g.rows * g.cols && 0 <= g.Code(y) < |came|
    requires CameFrom(g, came, x, from) && x != y
    ensures CameFrom(g, came[g.Code(y) := g.Code(via)], x, from)
  {
    OtherCode(g, x, y);
  }

  lemma InnerCode(g: Grid, x: Cell)
    requires g.Inner(x)
    ensures 0 <= g.Code(x) < g.rows * g.cols
  {
    Coded(g, x);
  }

  lemma OtherCode(g: Grid, x: Cell, y: Cell)
    requires g.Inner(x) && g.Inner(y)
    ensures g.Code(x) == g.Code(y) <==> x == y
  {
    Coded(g, x);
    Coded(g, y);
  }

  lemma AllInner(g: Grid, s: seq<Cell>, l: seq<Cell>)
    requires g.Opened(s) && forall x :: x in l ==> x in s
    ensures forall x :: x in l ==> g.Inner(x)
  {
    forall x | x in l ensures g.Inner(x) {
      assert g.OpenedAt(s, x);
    }
  }

  lemma TakenNone(s: seq<Cell>, found: seq<Cell>)
    ensures Taken(s, found, 0)
  {
  }

  lemma TakenStill(s: seq<Cell>, found: seq<Cell>, y: Cell, head: nat)
    requires Taken(s, found, head)
    ensures Taken(s, found + [y], head)
  {
  }

  lemma TakenNext(s: seq<Cell>, found: seq<Cell>, head: nat)
    requires Taken(s, found, head) && head < |found|
    requires forall d :: 0 <= d < 4 && NextCell(found[head], d) in s ==> NextCell(found[head], d) in found
    ensures Taken(s, found, head + 1)
  {
    forall k, y | 0 <= k < head + 1 && y in s && Beside(found[k], y) ensures y in found {
      if k == head {
        BesideIsNext(found[head], y);
      }
    }
  }

  lemma BesideIsNext(x: Cell, y: Cell)
    requires Beside(x, y)
    ensures exists d: nat :: d < 4 && NextCell(x, d) == y
  {
    var d: nat := if y.r < x.r then 0 else if y.r > x.r then 1 else if y.c < x.c then 2 else 3;
    assert NextCell(x, d) == y;
  }

  /** When the queue runs dry everything has been found. */
  lemma AllFound(g: Grid, s: seq<Cell>, found: seq<Cell>, from: seq<nat>, x: Cell)
    requires g.Fits() && g.Dug(s) && Chained(g, s, found, from) && Taken(s, found, |found|) && g.Room(x)
    ensures x in found
  {
    hide Grown, Grid.Opened;
    var p := Connected(s, g.Start(), x);
    forall a, b | a in found && b in s && Beside(a, b) ensures b in found {
      var k :| 0 <= k < |found| && found[k] == a;
    }
    StaysInside(s, found, p, |p| - 1);
  }

  // ---- the way back -------------------------------------------------------------------------------------------

  /** The cells met so far on the way back from the goal, and the one reached: the k-th found. */
  ghost predicate Returning(g: Grid, s: seq<Cell>, found: seq<Cell>, back: seq<Cell>, k: nat)
  {
    && k < |found| && |back| + k < |found|
    && Path(s, back + [found[k]], g.Goal(), found[k])
    && forall x :: x in back ==> x !in found[..k + 1]
  }

  lemma ReturnStarts(g: Grid, s: seq<Cell>, found: seq<Cell>, from: seq<nat>) returns (k: nat)
    requires Chained(g, s, found, from) && g.Goal() in found
    ensures Returning(g, s, found, [], k) && found[k] == g.Goal()
  {
    k :| 0 <= k < |found| && found[k] == g.Goal();
  }

  lemma ReturnsOn(g: Grid, s: seq<Cell>, found: seq<Cell>, from: seq<nat>, back: seq<Cell>, k: nat)
    requires Chained(g, s, found, from) && Returning(g, s, found, back, k) && k > 0
    ensures Returning(g, s, found, back + [found[k]], from[k])
  {
    var j, x := from[k], found[k];
    var b2 := back + [x];
    var p := b2 + [found[j]];
    assert found[j] in found[..k + 1] && found[j] == found[..k + 1][j];
    assert x !in found[..j + 1];
    forall i | 0 < i < |p| ensures Beside(p[i - 1], p[i]) {
      if i < |b2| {
        assert p[i] == (back + [x])[i] && p[i - 1] == (back + [x])[i - 1];
      } else {
        assert Beside(found[j], x);
      }
    }
    assert Distinct(p) by {
      assert found[j] !in back && found[j] != x;
    }
    forall y | y in b2 ensures y !in found[..j + 1] {
      if y in back {
        assert found[..j + 1] == found[..k + 1][..j + 1];
      }
    }
  }

  lemma ReturnEnds(g: Grid, s: seq<Cell>, found: seq<Cell>, from: seq<nat>, back: seq<Cell>)
    requires Chained(g, s, found, from) && Returning(g, s, found, back, 0)
    ensures Path(s, [g.Start()] + Backwards(back), g.Start(), g.Goal())
  {
    PathBackwards(s, back + [g.Start()], g.Goal(), g.Start());
    assert Backwards(back + [g.Start()]) == [g.Start()] + Backwards(back);
  }

  /** In a tree the way is the only path from the start to the goal, and no walk between them is shorter. */
  lemma OnlyWay(g: Grid, s: seq<Cell>, p: seq<Cell>)
    requires g.Dug(s) && Path(s, p, g.Start(), g.Goal())
    ensures forall q :: Path(s, q, g.Start(), g.Goal()) ==> q == p
    ensures forall w :: Walk(s, w) && w[0] == g.Start() && w[|w| - 1] == g.Goal() ==> |p| <= |w|
  {
    forall q | Path(s, q, g.Start(), g.Goal()) ensures q == p {
      OnePath(s, g.Start(), g.Goal(), q, p);
    }
    forall w | Walk(s, w) && w[0] == g.Start() && w[|w| - 1] == g.Goal() ensures |p| <= |w| {
      PathIsShortest(s, p, w);
    }
  }

  function Decoded(g: Grid, codes: seq<int>): (cells: seq<Cell>)
    requires g.cols > 0
    ensures |cells| == |codes|
  {
    seq(|codes|, k requires 0 <= k < |codes| => Cell(codes[k] / g.cols, codes[k] % g.cols))
  }

  /** The maze's arrays. */
  class Field {
    const g: Grid
    const wall: array2<bool>
    const cameFrom: array<int>
    const way: array<int>
    var wayLength: nat
    /** The open cells, in the order they were opened. */
    ghost var open: seq<Cell>

    ghost predicate Parts()
    {
      && g.Fits() && wall.Length0 == g.rows && wall.Length1 == g.cols && cameFrom != way
      && cameFrom.Length == g.rows * g.cols && way.Length == g.rows * g.cols
    }

    ghost predicate Shown()
      requires Parts()
      reads `open, wall
    {
      forall r, c :: 0 <= r < g.rows && 0 <= c < g.cols ==> (wall[r, c] <==> Cell(r, c) !in open)
    }

    constructor (g: Grid)
      requires g.Fits()
      ensures Parts() && this.g == g && fresh(wall) && fresh(cameFrom) && fresh(way)
    {
      this.g := g;
      wall := new bool[g.rows, g.cols];
      cameFrom := new int[g.rows * g.cols];
      way := new int[g.rows * g.cols];
      wayLength := 0;
      open := [];
    }

    method CloseAll()
      requires Parts()
      modifies wall, this`open
      ensures Shown() && open == []
    {
      for r := 0 to g.rows
        invariant forall i, j :: 0 <= i < r && 0 <= j < g.cols ==> wall[i, j]
      {
        for c := 0 to g.cols
          invariant forall i, j :: 0 <= i < r && 0 <= j < g.cols ==> wall[i, j]
          invariant forall j :: 0 <= j < c ==> wall[r, j]
        {
          wall[r, c] := true;
        }
      }
      open := [];
    }

    /** The directions in which there is a new room. */
    method Options(r: int, c: int) returns (options: seq<nat>)
      requires Parts() && Shown() && g.Room(Cell(r, c))
      ensures forall d :: d in options <==> 0 <= d < 4 && g.Room(Room2(Cell(r, c), d)) && Room2(Cell(r, c), d) !in open
    {
      hide Grid.Room, Room2, Dr, Dc;
      options := [];
      for d := 0 to 4
        invariant forall e ::
          e in options <==> 0 <= e < d && g.Room(Room2(Cell(r, c), e)) && Room2(Cell(r, c), e) !in open
      {
        var nr, nc := r + Dr(d), c + Dc(d);
        IsRoom(g, Cell(r, c), d);
        if nr > 0 && nr < g.rows && nc > 0 && nc < g.cols && wall[nr, nc] {
          options := options + [d];
        }
      }
    }

    method Open(r: int, c: int)
      requires Parts() && Shown() && 0 <= r < g.rows && 0 <= c < g.cols
      modifies wall, this`open
      ensures Shown() && open == old(open) + [Cell(r, c)]
    {
      wall[r, c] := false;
      open := open + [Cell(r, c)];
    }

    /** Opens the door of room (r, c) in direction d, then the room behind it. */
    method Knock(r: int, c: int, d: nat)
      requires Parts() && Shown() && g.Room(Cell(r, c)) && d < 4 && g.Room(Room2(Cell(r, c), d))
      modifies wall, this`open
      ensures Shown() && open == old(open) + [Door(Cell(r, c), d)] + [Room2(Cell(r, c), d)]
    {
      hide Dr, Dc, Field.Shown;
      DoorInside(g, Cell(r, c), d);
      Open(r + Dr(d) / 2, c + Dc(d) / 2);
      Open(r + Dr(d), c + Dc(d));
    }

    /** Whatever the random choices: every room is reached, by exactly one path from anywhere. */
    method Dig()
      requires Parts()
      modifies wall, this`open
      ensures Shown() && g.Dug(open)
    {
      hide Digging, Grid.Dug, Grid.Code, Dr, Dc, Grid.Room, Field.Shown, Door, Room2, Coding;
      CloseAll();
      var stack := new int[(g.rows / 2) * (g.cols / 2)];
      DiggingStarts(g);
      ghost var rooms, path := [g.Start()], [g.Start()];
      StackHolds(g, path, rooms, path, stack.Length);
      StartCode(g);
      CodingNone(g, stack[..]);
      CodingPush(g, stack[..], [], g.Start());
      stack[0] := 1 * g.cols + 1;
      var depth := 1;
      Open(1, 1);
      assert open == path;
      while depth > 0
        invariant Shown() && Digging(g, open, rooms, path) && depth == |path| <= stack.Length && |rooms| <= stack.Length
        invariant Coding(g, stack[..], path)
        decreases 2 * (stack.Length - |rooms|) + depth
      {
        ghost var x := path[depth - 1];
        CodingTop(g, stack[..], path);
        var here := stack[depth - 1];
        var r, c := here / g.cols, here % g.cols;
        PathIsRoom(g, open, rooms, path);
        var options := Options(r, c);
        if |options| == 0 {
          NoOptions(g, open, x, options);
          DeadEnd(g, open, rooms, path, x);
          CodingPop(g, stack[..], path);
          path := path[..depth - 1];
          depth := depth - 1;
        } else {
          var k :| 0 <= k < |options|;
          var d := options[k];
          assert d in options;
          DiggingOn(g, open, rooms, path, x, d);
          Knock(r, c, d);
          StackHolds(g, open, rooms + [Room2(x, d)], path + [Room2(x, d)], stack.Length);
          RoomCode(g, x, d);
          CodingPush(g, stack[..], path, Room2(x, d));
          stack[depth] := (r + Dr(d)) * g.cols + c + Dc(d);
          depth := depth + 1;
          rooms, path := rooms + [Room2(x, d)], path + [Room2(x, d)];
        }
      }
      AllReached(g, open, rooms);
    }

    // ---- the way out --------------------------------------------------------------------------------------------

    ghost predicate Searched(found: seq<Cell>, from: seq<nat>, queue: array<int>)
      requires Parts()
      reads this, cameFrom, queue
    {
      Searching(g, open, found, from, cameFrom[..], queue[..])
    }

    /** The cell `next`, beside the one just taken from the queue, joins it when it is open and new. */
    method See(here: int, next: int, queue: array<int>, tail0: nat, ghost i: nat, ghost d: nat,
        ghost found0: seq<Cell>, ghost from0: seq<nat>)
      returns (tail: nat, ghost found: seq<Cell>, ghost from: seq<nat>)
      requires Parts() && Shown() && g.Dug(open) && queue != cameFrom && Searched(found0, from0, queue)
      requires tail0 == |found0| && i < |found0| && here == g.Code(found0[i]) && next == NextCode(g, here, d)
      modifies cameFrom, queue
      ensures Searched(found, from, queue) && tail == |found| && found0 <= found && i < |found|
      ensures Shown() && found[i] == found0[i] && (NextCell(found[i], d) in open ==> NextCell(found[i], d) in found)
      ensures forall head :: Taken(open, found0, head) ==> Taken(open, found, head)
    {
      hide Grid.Dug, Grid.Code, Searching, NextCell, Taken, Walk;
      tail, found, from := tail0, found0, from0;
      ghost var x := found[i];
      ghost var y := NextCell(x, d);
      FoundIsOpen(g, open, found, from, cameFrom[..], queue[..], i);
      NextCoded(g, x, d);
      Coded(g, y);
      SeenAt(g, open, found, from, cameFrom[..], queue[..], y);
      if !wall[next / g.cols, next % g.cols] && cameFrom[next] < 0 {
        Finds(g, open, found, from, cameFrom[..], queue[..], i, y);
        forall head | Taken(open, found, head) ensures Taken(open, found + [y], head) {
          TakenStill(open, found, y, head);
        }
        cameFrom[next] := here;
        queue[tail] := next;
        tail := tail + 1;
        found, from := found + [y], from + [i];
      }
    }

    method Forget()
      requires Parts()
      modifies cameFrom
      ensures forall p :: 0 <= p < cameFrom.Length ==> cameFrom[p] == -1
    {
      for i := 0 to g.rows * g.cols
        invariant forall p :: 0 <= p < i ==> cameFrom[p] == -1
      {
        cameFrom[i] := -1;
      }
    }

    /** Everything beside the cell just taken from the queue. */
    method SeeAround(here: int, queue: array<int>, tail0: nat, ghost i: nat, ghost found0: seq<Cell>,
                     ghost from0: seq<nat>)
      returns (tail: nat, ghost found: seq<Cell>, ghost from: seq<nat>)
      requires Parts() && Shown() && g.Dug(open) && queue != cameFrom && Searched(found0, from0, queue)
      requires tail0 == |found0| && i < |found0| && here == g.Code(found0[i]) && Taken(open, found0, i)
      modifies cameFrom, queue
      ensures Searched(found, from, queue) && tail == |found| && i < tail && Taken(open, found, i + 1) && Shown()
    {
      hide Field.Searched, Field.Shown, Grid.Dug, Grid.Code, NextCell, NextCode, Taken;
      tail, found, from := tail0, found0, from0;
      for d := 0 to 4
        invariant Searched(found, from, queue) && tail == |found| && Taken(open, found, i) && Shown()
        invariant i < |found| && here == g.Code(found[i])
        invariant forall e :: 0 <= e < d && NextCell(found[i], e) in open ==> NextCell(found[i], e) in found
      {
        tail, found, from := See(here, NextCode(g, here, d), queue, tail, i, d, found, from);
      }
      TakenNext(open, found, i);
    }

    /** Breadth first from the start, until the goal comes out of the queue. */
    method Search() returns (ghost found: seq<Cell>, ghost from: seq<nat>)
      requires Parts() && Shown() && g.Dug(open)
      modifies cameFrom
      ensures g.Goal() in found && CameTo(g, open, found, from, cameFrom[..])
    {
      hide Grid.Dug, Grid.Code, Searching, Taken, Chained, Field.Shown, CameFrom, Grid.Room, Grid.Inner;
      var queue := new int[g.rows * g.cols];
      Forget();
      var start, goal := 1 * g.cols + 1, (g.rows - 2) * g.cols + g.cols - 2;
      EndCodes(g);
      var head, tail := 0, 0;
      queue[tail] := start;
      tail := tail + 1;
      cameFrom[start] := start;
      found, from := [g.Start()], [0];
      SearchStarts(g, open, cameFrom[..], queue[..]);
      TakenNone(open, found);
      while head < tail
        invariant Searched(found, from, queue) && tail == |found| && head <= tail && Taken(open, found, head) && Shown()
        decreases queue.Length - head
      {
        FoundIsOpen(g, open, found, from, cameFrom[..], queue[..], head);
        QueueHolds(g, open, found, from, cameFrom[..], queue[..], head);
        var here := queue[head];
        ghost var i := head;
        head := head + 1;
        if here == goal {
          OtherCode(g, found[i], g.Goal());
          break;
        }
        tail, found, from := SeeAround(here, queue, tail, i, found, from);
      }
      SearchCameTo(g, open, found, from, cameFrom[..], queue[..]);
      if g.Goal() !in found {
        AllFound(g, open, found, from, g.Goal());
      }
    }

    /** Back from the goal along came_from. */
    method Return(ghost found: seq<Cell>, ghost from: seq<nat>) returns (ghost back: seq<Cell>)
      requires Parts() && g.Goal() in found && CameTo(g, open, found, from, cameFrom[..]) && g.Opened(open)
      modifies way, this`wayLength
      ensures wayLength == |back| <= way.Length && forall k :: 0 <= k < |back| ==> way[k] == g.Code(back[k])
      ensures Path(open, [g.Start()] + Backwards(back), g.Start(), g.Goal())
    {
      hide Grid.Opened, Grid.Code, Path, Walk, Chained, Returning, CameFrom;
      var start := 1 * g.cols + 1;
      EndCodes(g);
      wayLength := 0;
      ghost var k: nat := ReturnStarts(g, open, found, from);
      back := [];
      var at := (g.rows - 2) * g.cols + g.cols - 2;
      while at != start
        invariant Returning(g, open, found, back, k) && k < |found| && at == g.Code(found[k])
        invariant wayLength == |back| && |back| + k < |found| <= way.Length
        invariant forall j :: 0 <= j < |back| ==> way[j] == g.Code(back[j])
        decreases k
      {
        NotAtStart(g, open, found, from, cameFrom[..], k);
        ReturnsOn(g, open, found, from, back, k);
        way[wayLength] := at;
        wayLength := wayLength + 1;
        at := cameFrom[at];
        back, k := back + [found[k]], from[k];
      }
      AtStart(g, open, found, from, cameFrom[..], k);
      ReturnEnds(g, open, found, from, back);
    }

    method Reverse()
      requires wayLength <= way.Length
      modifies way
      ensures forall k :: 0 <= k < wayLength ==> way[k] == old(way[wayLength - 1 - k])
    {
      for i := 0 to wayLength / 2
        invariant forall k ::
          0 <= k < i ==> way[k] == old(way[wayLength - 1 - k]) && way[wayLength - 1 - k] == old(way[k])
        invariant forall k :: i <= k < wayLength - i ==> way[k] == old(way[k])
      {
        var t := way[i];
        way[i] := way[wayLength - 1 - i];
        way[wayLength - 1 - i] := t;
      }
    }

    /** The way as cells, the start left out. */
    ghost function Cells(): seq<Cell>
      requires Parts() && wayLength <= way.Length
      reads this, way
    {
      Decoded(g, way[..wayLength])
    }

    /** The way out of a dug maze: the only path to the goal, and no walk there is shorter. */
    method FindWay()
      requires Parts() && Shown() && g.Dug(open)
      modifies cameFrom, way, this`wayLength
      ensures wayLength <= way.Length && Path(open, [g.Start()] + Cells(), g.Start(), g.Goal())
      ensures forall q :: Path(open, q, g.Start(), g.Goal()) ==> q == [g.Start()] + Cells()
      ensures forall w :: Walk(open, w) && w[0] == g.Start() && w[|w| - 1] == g.Goal() ==> 1 + wayLength <= |w|
    {
      hide Grid.Dug, Path, Walk, CameTo, Grid.Code;
      var found, from := Search();
      DugIsOpened(g, open);
      var back := Return(found, from);
      Reverse();
      forall k | 0 <= k < |back| ensures Cells()[k] == Backwards(back)[k] {
        BackCode(g, open, back, |back| - 1 - k);
      }
      assert Cells() == Backwards(back);
      OnlyWay(g, open, [g.Start()] + Cells());
    }

    /** A new maze and the way out of it. */
    method NewGame()
      requires Parts()
      modifies wall, cameFrom, way, this`wayLength, this`open
      ensures Shown() && g.Dug(open) && wayLength <= way.Length
      ensures Path(open, [g.Start()] + Cells(), g.Start(), g.Goal())
      ensures forall w :: Walk(open, w) && w[0] == g.Start() && w[|w| - 1] == g.Goal() ==> 1 + wayLength <= |w|
    {
      hide Grid.Dug, Path, Walk, Field.Shown;
      Dig();
      FindWay();
    }
  }

  lemma DugIsOpened(g: Grid, s: seq<Cell>)
    requires g.Dug(s)
    ensures g.Opened(s)
  {
  }

  lemma BackCode(g: Grid, s: seq<Cell>, back: seq<Cell>, j: nat)
    requires g.Fits() && g.Opened(s) && Path(s, [g.Start()] + Backwards(back), g.Start(), g.Goal()) && j < |back|
    ensures var code := g.Code(back[j]); Cell(code / g.cols, code % g.cols) == back[j]
  {
    var p := [g.Start()] + Backwards(back);
    assert p[|back| - j] == back[j] && p[|back| - j] in s;
    assert g.OpenedAt(s, back[j]);
    Coded(g, back[j]);
  }

  /** Between any two open places of a dug maze there is exactly one way. */
  lemma ExactlyOneWay(g: Grid, s: seq<Cell>, a: Cell, b: Cell)
    requires g.Dug(s) && a in s && b in s
    ensures exists p :: Path(s, p, a, b) && forall q :: Path(s, q, a, b) ==> q == p
  {
    hide Path, Grown, Grid.Opened;
    var p := Connected(s, a, b);
    forall q | Path(s, q, a, b) ensures q == p {
      OnePath(s, a, b, q, p);
    }
  }

  /** Every cell found but the start was reached from one found earlier, which came_from names. */
  ghost predicate CameTo(g: Grid, s: seq<Cell>, found: seq<Cell>, from: seq<nat>, came: seq<int>)
  {
    && Chained(g, s, found, from) && g.Opened(s) && |found| <= |came| == g.rows * g.cols
    && forall k :: 0 < k < |found| ==> CameFrom(g, came, found[k], found[from[k]])
  }

  lemma SearchCameTo(g: Grid, s: seq<Cell>, found: seq<Cell>, from: seq<nat>, came: seq<int>, queue: seq<int>)
    requires g.Dug(s) && Searching(g, s, found, from, came, queue)
    ensures CameTo(g, s, found, from, came)
  {
    hide Grown, CameFrom, Marked;
  }

  lemma QueueHolds(g: Grid, s: seq<Cell>, found: seq<Cell>, from: seq<nat>, came: seq<int>, queue: seq<int>, i: nat)
    requires Searching(g, s, found, from, came, queue) && i < |found|
    ensures |found| <= |queue| && queue[i] == g.Code(found[i])
  {
    hide CameFrom, Marked;
  }

  lemma EndCodes(g: Grid)
    requires g.Fits()
    ensures g.Code(g.Start()) == 1 * g.cols + 1 && g.Code(g.Goal()) == (g.rows - 2) * g.cols + g.cols - 2
    ensures g.Room(g.Goal()) && g.Room(g.Start())
    ensures 0 <= g.Code(g.Start()) < g.rows * g.cols && 0 <= g.Code(g.Goal()) < g.rows * g.cols
  {
    Coded(g, g.Start());
    Coded(g, g.Goal());
  }

  lemma NotAtStart(g: Grid, s: seq<Cell>, found: seq<Cell>, from: seq<nat>, came: seq<int>, k: nat)
    requires CameTo(g, s, found, from, came) && k < |found| && g.Code(found[k]) != g.Code(g.Start())
    ensures k > 0 && |from| == |found| && from[k] < k && 0 <= g.Code(found[k]) < |came|
    ensures came[g.Code(found[k])] == g.Code(found[from[k]])
  {
    assert found[k] in found;
    assert g.OpenedAt(s, found[k]);
    InnerCode(g, found[k]);
    assert CameFrom(g, came, found[k], found[from[k]]);
  }

  lemma AtStart(g: Grid, s: seq<Cell>, found: seq<Cell>, from: seq<nat>, came: seq<int>, k: nat)
    requires CameTo(g, s, found, from, came) && k < |found| && g.Code(found[k]) == g.Code(g.Start()) && g.Fits()
    ensures k == 0
  {
    assert found[k] in found;
    assert g.OpenedAt(s, found[k]);
    OtherCode(g, found[k], g.Start());
    assert !(0 < k);
  }

  lemma FoundIsOpen(g: Grid, s: seq<Cell>, found: seq<Cell>, from: seq<nat>, came: seq<int>, queue: seq<int>, i: nat)
    requires g.Fits() && g.Dug(s) && Searching(g, s, found, from, came, queue) && i < |found|
    ensures found[i] in s && g.Inner(found[i]) && g.Opened(s) && |came| == g.rows * g.cols && |queue| == g.rows * g.cols
  {
    hide Grown;
    assert found[i] in found;
    assert g.OpenedAt(s, found[i]);
  }

  /** An open cell is marked just when it has been found. */
  lemma SeenAt(g: Grid, s: seq<Cell>, found: seq<Cell>, from: seq<nat>, came: seq<int>, queue: seq<int>, y: Cell)
    requires g.Fits() && g.Dug(s) && Searching(g, s, found, from, came, queue)
    ensures y in s ==> 0 <= g.Code(y) < |came| && (came[g.Code(y)] < 0 <==> y !in found)
  {
    hide Grown;
    if y in s {
      assert g.OpenedAt(s, y);
      InnerCode(g, y);
      assert Marked(g, came, y) <==> y in found;
    }
  }

  /** The stack holds the path, cell by cell. */
  ghost predicate Coding(g: Grid, stack: seq<int>, path: seq<Cell>)
  {
    |path| <= |stack| && forall k :: 0 <= k < |path| ==> stack[k] == g.Code(path[k])
  }

  lemma CodingNone(g: Grid, stack: seq<int>)
    ensures Coding(g, stack, [])
  {
  }

  lemma CodingTop(g: Grid, stack: seq<int>, path: seq<Cell>)
    requires Coding(g, stack, path) && path != []
    ensures stack[|path| - 1] == g.Code(path[|path| - 1])
  {
  }

  lemma CodingPop(g: Grid, stack: seq<int>, path: seq<Cell>)
    requires Coding(g, stack, path) && path != []
    ensures Coding(g, stack, path[..|path| - 1])
  {
  }

  lemma CodingPush(g: Grid, stack: seq<int>, path: seq<Cell>, x: Cell)
    requires |path| < |stack| && Coding(g, stack, path)
    ensures Coding(g, stack[|path| := g.Code(x)], path + [x])
  {
  }

  lemma StackHolds(g: Grid, s: seq<Cell>, rooms: seq<Cell>, path: seq<Cell>, size: nat)
    requires g.Fits() && Digging(g, s, rooms, path) && size == (g.rows / 2) * (g.cols / 2)
    ensures |rooms| <= size && |path| <= size
  {
    hide Grown, Grid.Opened, Exhausted;
    RoomsFit(g, rooms);
    RoomsFit(g, path);
  }

  lemma PathIsRoom(g: Grid, s: seq<Cell>, rooms: seq<Cell>, path: seq<Cell>)
    requires g.Fits() && Digging(g, s, rooms, path) && path != []
    ensures var x := path[|path| - 1];
      g.Room(x) && Cell(g.Code(x) / g.cols, g.Code(x) % g.cols) == x
  {
    hide Grown, Grid.Opened, Exhausted;
    assert path[|path| - 1] in path;
    Coded(g, path[|path| - 1]);
  }

  lemma StartCode(g: Grid)
    ensures g.Code(g.Start()) == 1 * g.cols + 1
  {
  }

  lemma RoomCode(g: Grid, x: Cell, d: nat)
    ensures g.Code(Room2(x, d)) == (x.r + Dr(d)) * g.cols + x.c + Dc(d)
  {
  }

  lemma NoOptions(g: Grid, s: seq<Cell>, x: Cell, options: seq<nat>)
    requires options == []
    requires forall d :: d in options <==> 0 <= d < 4 && g.Room(Room2(x, d)) && Room2(x, d) !in s
    ensures forall d :: 0 <= d < 4 && g.Room(Room2(x, d)) ==> Room2(x, d) in s
  {
    forall d | 0 <= d < 4 && g.Room(Room2(x, d)) ensures Room2(x, d) in s {
      assert d !in options;
    }
  }

  lemma IsRoom(g: Grid, x: Cell, d: nat)
    requires g.Fits() && g.Room(x) && d < 4
    ensures Room2(x, d) == Cell(x.r + Dr(d), x.c + Dc(d))
    ensures g.Room(Room2(x, d)) <==> 0 < x.r + Dr(d) < g.rows && 0 < x.c + Dc(d) < g.cols
  {
    OddStep(x.r, g.rows, Dr(d));
    OddStep(x.c, g.cols, Dc(d));
  }

  lemma OddStep(x: int, n: nat, by2: int)
    requires x % 2 == 1 && n % 2 == 1 && (by2 == -2 || by2 == 0 || by2 == 2)
    ensures (x + by2) % 2 == 1 && x + by2 != n - 1
  {
  }

  lemma DoorInside(g: Grid, x: Cell, d: nat)
    requires g.Room(x) && d < 4 && g.Room(Room2(x, d))
    ensures g.Inner(Door(x, d)) && g.Inner(Room2(x, d))
  {
  }
}
