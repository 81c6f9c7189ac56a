/**
 * A picture into tiles: colours shared out in banks, each tile kept once however it is flipped, and the map of them.
 */
module Tiles {
  import opened Powers
  import opened Palettes

  // ---- places in a grid -------------------------------------------------------------------------------------

  function Place(x: nat, y: nat, w: nat): nat
  {
    y * w + x
  }

  lemma Placed(x: nat, y: nat, w: nat, h: nat)
    requires x < w && y < h
    ensures Place(x, y, w) < w * h && Place(x, y, w) / w == y && Place(x, y, w) % w == x
  {
    DivModUnique(Place(x, y, w), y, w, x);
    MulMonotone(y + 1, h, w);
    Distribute(y, 1, w);
  }

  lemma PlaceOf(k: nat, w: nat, h: nat)
    requires k < w * h && w > 0
    ensures k % w < w && k / w < h && Place(k % w, k / w, w) == k
  {
    DivModIdentity(k, w);
    if k / w >= h {
      MulMonotone(h, k / w, w);
    }
  }

  // ---- the picture ------------------------------------------------------------------------------------------

  datatype Pixel = Pixel(r: nat, g: nat, b: nat, a: nat)

  datatype Image = Image(width: nat, height: nat, pixels: seq<Pixel>)
  {
    predicate Valid()
    {
      |pixels| == width * height
    }

    /** What is seen at (x, y): a colour, or -1 for nothing. */
    function ColourAt(x: nat, y: nat, key: int): int
      requires Valid() && x < width && y < height
    {
      Placed(x, y, width, height);
      Colour(pixels[Place(x, y, width)], key)
    }
  }

  /** `key` is -1 when no colour is to be clear. */
  function Colour(p: Pixel, key: int): (c: int)
    ensures c >= -1
  {
    var rgb := p.r * 0x1_0000 + p.g * 0x100 + p.b;
    if p.a < 128 || rgb == key then -1 else rgb
  }

  /** A square of the picture as colours. */
  function Square(image: Image, left: nat, top: nat, size: nat, key: int): (b: seq<int>)
    requires image.Valid() && left + size <= image.width && top + size <= image.height
    ensures |b| == size * size
  {
    seq(size * size, k requires 0 <= k < size * size =>
      PlaceOf(k, size, size); image.ColourAt(left + k % size, top + k / size, key))
  }

  lemma SquareAt(image: Image, left: nat, top: nat, size: nat, key: int, x: nat, y: nat)
    requires image.Valid() && left + size <= image.width && top + size <= image.height && x < size && y < size
    ensures Place(x, y, size) < size * size
    ensures Square(image, left, top, size, key)[Place(x, y, size)] == image.ColourAt(left + x, top + y, key)
  {
    Placed(x, y, size, size);
  }

  method Block(image: Image, left: nat, top: nat, size: nat, key: int) returns (out: seq<int>)
    requires image.Valid() && left + size <= image.width && top + size <= image.height
    ensures out == Square(image, left, top, size, key)
  {
    hide Image.ColourAt;
    out := [];
    ghost var b := Square(image, left, top, size, key);
    for y := 0 to size
      invariant |out| == Place(0, y, size) <= size * size && out == b[..|out|]
    {
      for x := 0 to size
        invariant |out| == Place(x, y, size) && |out| <= size * size && out == b[..|out|]
      {
        SquareAt(image, left, top, size, key, x, y);
        out := out + [image.ColourAt(left + x, top + y, key)];
      }
      RowEnds(y, size);
    }
  }

  lemma RowEnds(y: nat, size: nat)
    requires y < size
    ensures Place(size, y, size) == Place(0, y + 1, size) <= size * size
  {
    Distribute(y, 1, size);
    MulMonotone(y + 1, size, size);
  }

  // ---- tiles ------------------------------------------------------------------------------------------------

  function Mirror(n: nat, size: nat, flip: bool): (m: nat)
    requires n < size
    ensures m < size
  {
    if flip then size - 1 - n else n
  }

  /** A tile's pixel at (x, y) once it is flipped. */
  function Flipped(pixels: seq<nat>, size: nat, fx: bool, fy: bool): (r: seq<nat>)
    requires |pixels| == size * size
    ensures |r| == |pixels|
  {
    seq(size * size, k requires 0 <= k < size * size =>
      PlaceOf(k, size, size);
      Placed(Mirror(k % size, size, fx), Mirror(k / size, size, fy), size, size);
      pixels[Place(Mirror(k % size, size, fx), Mirror(k / size, size, fy), size)])
  }

  lemma FlippedAt(pixels: seq<nat>, size: nat, fx: bool, fy: bool, x: nat, y: nat)
    requires |pixels| == size * size && x < size && y < size
    ensures var k, m := Place(x, y, size), Place(Mirror(x, size, fx), Mirror(y, size, fy), size);
      k < size * size && m < size * size && Flipped(pixels, size, fx, fy)[k] == pixels[m]
  {
    Placed(x, y, size, size);
    Placed(Mirror(x, size, fx), Mirror(y, size, fy), size, size);
  }

  /** Flipping the same way twice is nothing. */
  lemma FlippedTwice(pixels: seq<nat>, size: nat, fx: bool, fy: bool)
    requires |pixels| == size * size
    ensures Flipped(Flipped(pixels, size, fx, fy), size, fx, fy) == pixels
  {
    var once := Flipped(pixels, size, fx, fy);
    var twice := Flipped(once, size, fx, fy);
    forall k | 0 <= k < size * size ensures twice[k] == pixels[k] {
      PlaceOf(k, size, size);
      FlippedAt(once, size, fx, fy, k % size, k / size);
      FlippedAt(pixels, size, fx, fy, Mirror(k % size, size, fx), Mirror(k / size, size, fy));
    }
  }

  method FlipPixels(pixels: seq<nat>, size: nat, fx: bool, fy: bool) returns (out: seq<nat>)
    requires |pixels| == size * size
    ensures out == Flipped(pixels, size, fx, fy)
  {
    hide Flipped;
    out := [];
    ghost var r := Flipped(pixels, size, fx, fy);
    for y := 0 to size
      invariant |out| == Place(0, y, size) <= size * size && out == r[..|out|]
    {
      for x := 0 to size
        invariant |out| == Place(x, y, size) && |out| <= size * size && out == r[..|out|]
      {
        FlippedAt(pixels, size, fx, fy, x, y);
        out := out + [pixels[Place(Mirror(x, size, fx), Mirror(y, size, fy), size)]];
      }
      RowEnds(y, size);
    }
  }

  // ---- a map's entry ----------------------------------------------------------------------------------------

  /** The tile's number in bits 9:0, the bank in 12:10, then the two flips: no two of them share a bit. */
  function Entry(tile: nat, bank: nat, fx: bool, fy: bool): nat
  {
    tile + 0x400 * bank + (if fx then 0x2000 else 0) + (if fy then 0x4000 else 0)
  }

  function TileOf(entry: nat): nat { entry % 0x400 }

  function BankOf(entry: nat): nat { entry / 0x400 % 8 }

  predicate FlipsX(entry: nat) { entry / 0x2000 % 2 == 1 }

  predicate FlipsY(entry: nat) { entry / 0x4000 % 2 == 1 }

  lemma EntryParts(tile: nat, bank: nat, fx: bool, fy: bool)
    requires tile < 0x400 && bank < 8
    ensures var e := Entry(tile, bank, fx, fy);
      TileOf(e) == tile && BankOf(e) == bank && (FlipsX(e) <==> fx) && (FlipsY(e) <==> fy) && e < 0x8000
  {
  }

  // ---- bytes ------------------------------------------------------------------------------------------------

  /** Number k of a packed tile: a byte of its own, or the high or low half of byte k / 2. */
  function Unpacked(bytes: seq<nat>, bpp: nat, k: nat): nat
  {
    if bpp == 8 then if k < |bytes| then bytes[k] else 0
    else if k / 2 >= |bytes| then 0
    else if k % 2 == 0 then bytes[k / 2] / 16 else bytes[k / 2] % 16
  }

  function PackedSize(n: nat, bpp: nat): nat
  {
    if bpp == 8 then n else (n + 1) / 2
  }

  ghost predicate Packs(numbers: seq<nat>, bpp: nat, bytes: seq<nat>)
  {
    && |bytes| == PackedSize(|numbers|, bpp) && (forall k :: 0 <= k < |bytes| ==> bytes[k] < 256)
    && forall k :: 0 <= k < |numbers| ==> Unpacked(bytes, bpp, k) == numbers[k]
  }

  method Pack(numbers: seq<nat>, bpp: nat) returns (bytes: seq<nat>)
    requires forall k :: 0 <= k < |numbers| ==> numbers[k] < if bpp == 8 then 256 else 16
    ensures Packs(numbers, bpp, bytes)
  {
    if bpp == 8 {
      return numbers;
    }
    bytes := [];
    var i := 0;
    while i < |numbers|
      invariant i == 2 * |bytes| && i <= |numbers| + 1 && (forall k :: 0 <= k < |bytes| ==> bytes[k] < 256)
      invariant forall k :: 0 <= k < i && k < |numbers| ==> Unpacked(bytes, bpp, k) == numbers[k]
    {
      bytes := bytes + [16 * numbers[i] + (if i + 1 < |numbers| then numbers[i + 1] else 0)];
      i := i + 2;
    }
  }

  // ---- the picture's squares --------------------------------------------------------------------------------

  ghost predicate Squares(image: Image, size: nat, key: int, cols: nat, rows: nat, blocks: seq<seq<int>>)
    requires image.Valid() && image.width == cols * size && image.height == rows * size
  {
    forall c: nat, r: nat :: c < cols && r < rows && Place(c, r, cols) < |blocks| ==>
      SquareIs(image, size, key, c, r, blocks[Place(c, r, cols)])
  }

  ghost predicate SquareIs(image: Image, size: nat, key: int, c: nat, r: nat, b: seq<int>)
  {
    && image.Valid() && c * size + size <= image.width && r * size + size <= image.height
    && b == Square(image, c * size, r * size, size, key)
  }

  lemma Fits(c: nat, cols: nat, size: nat)
    requires c < cols
    ensures c * size + size <= cols * size
  {
    Distribute(c, 1, size);
    MulMonotone(c + 1, cols, size);
  }

  method Blocks(image: Image, size: nat, key: int, cols: nat, rows: nat) returns (blocks: seq<seq<int>>)
    requires image.Valid() && image.width == cols * size && image.height == rows * size
    ensures |blocks| == cols * rows && Squares(image, size, key, cols, rows, blocks) && AllColoured(blocks, size)
  {
    hide Square, Squares;
    blocks := [];
    NoSquares(image, size, key, cols, rows);
    for row := 0 to rows
      invariant |blocks| == Place(0, row, cols)
      invariant Squares(image, size, key, cols, rows, blocks) && AllColoured(blocks, size)
    {
      for col := 0 to cols
        invariant |blocks| == Place(col, row, cols)
        invariant Squares(image, size, key, cols, rows, blocks) && AllColoured(blocks, size)
      {
        Fits(col, cols, size);
        Fits(row, rows, size);
        var b := Block(image, col * size, row * size, size, key);
        SquareColours(image, col * size, row * size, size, key);
        SquareMore(image, size, key, cols, rows, blocks, col, row, b);
        blocks := blocks + [b];
      }
      Distribute(row, 1, cols);
    }
  }

  ghost predicate AllColoured(blocks: seq<seq<int>>, size: nat)
  {
    forall i :: 0 <= i < |blocks| ==> Coloured(blocks[i], size)
  }

  ghost predicate Coloured(b: seq<int>, size: nat)
  {
    |b| == size * size && forall k :: 0 <= k < |b| ==> b[k] >= -1
  }

  lemma SquareColours(image: Image, left: nat, top: nat, size: nat, key: int)
    requires image.Valid() && left + size <= image.width && top + size <= image.height
    ensures Coloured(Square(image, left, top, size, key), size)
  {
    forall k | 0 <= k < size * size ensures Square(image, left, top, size, key)[k] >= -1 {
      PlaceOf(k, size, size);
    }
  }

  lemma NoSquares(image: Image, size: nat, key: int, cols: nat, rows: nat)
    requires image.Valid() && image.width == cols * size && image.height == rows * size
    ensures Squares(image, size, key, cols, rows, [])
  {
  }

  lemma SquareMore(image: Image, size: nat, key: int, cols: nat, rows: nat, blocks: seq<seq<int>>,
      col: nat, row: nat, b: seq<int>)
    requires image.Valid() && image.width == cols * size && image.height == rows * size && col < cols && row < rows
    requires Squares(image, size, key, cols, rows, blocks) && |blocks| == Place(col, row, cols)
    requires SquareIs(image, size, key, col, row, b)
    ensures Squares(image, size, key, cols, rows, blocks + [b])
  {
    hide SquareIs, Place;
    var more := blocks + [b];
    forall c: nat, r: nat | c < cols && r < rows && Place(c, r, cols) < |more|
      ensures SquareIs(image, size, key, c, r, more[Place(c, r, cols)])
    {
      Placed(c, r, cols, rows);
      Placed(col, row, cols, rows);
    }
  }

  // ---- keeping each tile once -------------------------------------------------------------------------------

  datatype Options = Options(size: nat, bpp: nat, key: int, dedupe: bool, flip: bool, pad: bool)
  {
    predicate Valid()
    {
      (size == 8 || size == 16) && (bpp == 4 || bpp == 8)
    }

    function Limit(): nat
    {
      if bpp == 8 then 256 else 16
    }
  }

  ghost predicate IsTile(t: seq<nat>, o: Options)
  {
    |t| == o.size * o.size && forall k :: 0 <= k < |t| ==> t[k] < o.Limit()
  }

  /** The tiles so far, the clear one first, and which of them each known picture is. */
  ghost predicate Kept(tiles: seq<seq<nat>>, known: map<seq<nat>, nat>, o: Options)
  {
    && tiles != [] && tiles[0] == seq(o.size * o.size, _ => 0) && (forall t :: 0 <= t < |tiles| ==> IsTile(tiles[t], o))
    && (forall p :: p in known ==> known[p] < |tiles| && tiles[known[p]] == p)
  }

  /** Drawing the entry's tile with its flips gives these pixels. */
  ghost predicate Draws(tiles: seq<seq<nat>>, entry: nat, pixels: seq<nat>, o: Options)
  {
    && TileOf(entry) < |tiles| && |tiles[TileOf(entry)]| == o.size * o.size
    && Flipped(tiles[TileOf(entry)], o.size, FlipsX(entry), FlipsY(entry)) == pixels
  }

  /** And the entry names the bank its numbers are for, unless nothing of it shows. */
  ghost predicate Maps(tiles: seq<seq<nat>>, entry: nat, bank: nat, pixels: seq<nat>, o: Options)
  {
    Draws(tiles, entry, pixels, o) && entry < 0x8000 && (o.bpp == 4 && TileOf(entry) != 0 ==> BankOf(entry) == bank)
  }

  /** No known tile is these pixels, in any of the ways a tile may be turned. */
  ghost predicate Unknown(known: map<seq<nat>, nat>, pixels: seq<nat>, o: Options)
  {
    |pixels| == o.size * o.size && forall fx, fy :: (fx || fy ==> o.flip) ==> Flipped(pixels, o.size, fx, fy) !in known
  }

  /** Every tile is known, so a new one is none of the others, however they are turned. */
  ghost predicate AllKnown(tiles: seq<seq<nat>>, known: map<seq<nat>, nat>)
  {
    forall t :: 0 <= t < |tiles| ==> tiles[t] in known
  }

  ghost predicate KeptOnce(tiles: seq<seq<nat>>, o: Options)
  {
    forall t, u :: 0 <= t < u < |tiles| ==> Another(tiles[t], tiles[u], o)
  }

  ghost predicate Another(tile: seq<nat>, pixels: seq<nat>, o: Options)
  {
    |pixels| == o.size * o.size && forall fx, fy :: (fx || fy ==> o.flip) ==> Flipped(pixels, o.size, fx, fy) != tile
  }

  lemma NewIsAnother(tiles: seq<seq<nat>>, known: map<seq<nat>, nat>, pixels: seq<nat>, o: Options)
    requires AllKnown(tiles, known) && KeptOnce(tiles, o) && Unknown(known, pixels, o)
    ensures KeptOnce(tiles + [pixels], o)
  {
    hide Flipped;
    var more := tiles + [pixels];
    forall t, u | 0 <= t < u < |more| ensures Another(more[t], more[u], o) {
      if u == |tiles| { assert tiles[t] in known; }
    }
  }

  lemma FlippedNot(pixels: seq<nat>, size: nat)
    requires |pixels| == size * size
    ensures Flipped(pixels, size, false, false) == pixels
  {
    forall k | 0 <= k < size * size ensures Flipped(pixels, size, false, false)[k] == pixels[k] {
      PlaceOf(k, size, size);
    }
  }

  /** A known tile that is these pixels, flipped or not; -1 when there is none. */
  method FindTile(ghost tiles: seq<seq<nat>>, known: map<seq<nat>, nat>, pixels: seq<nat>, o: Options)
    returns (entry: int)
    requires o.Valid() && Kept(tiles, known, o) && |tiles| <= 0x400 && IsTile(pixels, o)
    ensures entry >= 0 ==> Draws(tiles, entry, pixels, o) && BankOf(entry) == 0 && entry < 0x8000
    ensures entry < 0 ==> Unknown(known, pixels, o)
  {
    hide Flipped, TileOf, BankOf, FlipsX, FlipsY, IsTile;
    TileSize(pixels, o);
    entry := -1;
    var clear := forall k :: 0 <= k < |pixels| ==> pixels[k] == 0;
    if clear {
      ClearTile(tiles, known, pixels, o);
      entry := 0;
    }
    var variants := if o.flip then [(false, false), (true, false), (false, true), (true, true)] else [(false, false)];
    for v := 0 to |variants|
      invariant entry >= 0 ==> Draws(tiles, entry, pixels, o) && BankOf(entry) == 0 && entry < 0x8000
      invariant entry < 0 ==> forall w :: 0 <= w < v ==> Flipped(pixels, o.size, variants[w].0, variants[w].1) !in known
    {
      if entry >= 0 {
        break;
      }
      var (fx, fy) := variants[v];
      var turned := FlipPixels(pixels, o.size, fx, fy);
      if turned in known {
        FlippedTwice(pixels, o.size, fx, fy);
        EntryParts(known[turned], 0, fx, fy);
        entry := Entry(known[turned], 0, fx, fy);
      }
    }
    if entry < 0 {
      forall fx, fy | fx || fy ==> o.flip ensures Flipped(pixels, o.size, fx, fy) !in known {
        assert !fx && !fy ==> variants[0] == (fx, fy);
        assert o.flip ==> variants[(if fx then 1 else 0) + if fy then 2 else 0] == (fx, fy);
      }
    }
  }

  lemma TileSize(pixels: seq<nat>, o: Options)
    requires IsTile(pixels, o)
    ensures |pixels| == o.size * o.size
  {
  }

  lemma ClearTile(tiles: seq<seq<nat>>, known: map<seq<nat>, nat>, pixels: seq<nat>, o: Options)
    requires Kept(tiles, known, o) && IsTile(pixels, o) && forall k :: 0 <= k < |pixels| ==> pixels[k] == 0
    ensures Draws(tiles, 0, pixels, o) && BankOf(0) == 0
  {
    hide Flipped;
    assert pixels == tiles[0];
    FlippedNot(pixels, o.size);
  }

  /** One square of the picture: its tile, kept or found, and its entry. */
  method AddTile(tiles0: seq<seq<nat>>, known0: map<seq<nat>, nat>, pixels: seq<nat>, bank: nat, o: Options)
    returns (tiles: seq<seq<nat>>, known: map<seq<nat>, nat>, entry: nat)
    requires o.Valid() && Kept(tiles0, known0, o) && |tiles0| <= 0x400 && IsTile(pixels, o) && bank < 8
    ensures Kept(tiles, known, o) && tiles0 <= tiles && |tiles| <= |tiles0| + 1
    ensures |tiles| <= 0x400 ==> Maps(tiles, entry, bank, pixels, o)
    ensures o.dedupe && AllKnown(tiles0, known0) && KeptOnce(tiles0, o) ==> AllKnown(tiles, known) && KeptOnce(tiles, o)
  {
    hide Flipped, TileOf, BankOf, FlipsX, FlipsY, IsTile;
    tiles, known := tiles0, known0;
    var at := -1;
    if o.dedupe {
      at := FindTile(tiles, known, pixels, o);
    }
    if at < 0 {
      if o.dedupe && AllKnown(tiles, known) && KeptOnce(tiles, o) {
        NewIsAnother(tiles, known, pixels, o);
      }
      tiles := tiles + [pixels];
      at := |tiles| - 1;
      known := known[pixels := at];
      if |tiles| <= 0x400 {
        NewTile(tiles, at, pixels, o);
      }
    }
    entry := at + if o.bpp == 4 && TileOf(at) != 0 then 0x400 * bank else 0;
    if |tiles| <= 0x400 {
      Banks(tiles, at, bank, pixels, o);
    }
  }

  lemma NewTile(tiles: seq<seq<nat>>, at: nat, pixels: seq<nat>, o: Options)
    requires at < |tiles| <= 0x400 && tiles[at] == pixels && IsTile(pixels, o)
    ensures Draws(tiles, at, pixels, o) && BankOf(at) == 0
  {
    FlippedNot(pixels, o.size);
  }

  lemma Banks(tiles: seq<seq<nat>>, at: nat, bank: nat, pixels: seq<nat>, o: Options)
    requires Draws(tiles, at, pixels, o) && BankOf(at) == 0 && at < 0x8000 && bank < 8
    ensures Maps(tiles, at + (if o.bpp == 4 && TileOf(at) != 0 then 0x400 * bank else 0), bank, pixels, o)
  {
    hide Flipped;
    BankBits(at, bank);
  }

  lemma BankBits(at: nat, bank: nat)
    requires BankOf(at) == 0 && at < 0x8000 && bank < 8
    ensures var e := at + 0x400 * bank;
      && TileOf(e) == TileOf(at) && BankOf(e) == bank && (FlipsX(e) <==> FlipsX(at))
      && (FlipsY(e) <==> FlipsY(at)) && e < 0x8000
  {
  }

  ghost predicate Mapped(tiles: seq<seq<nat>>, entries: seq<nat>, x: Indexed, o: Options)
    requires x.Indexed?
  {
    && |entries| <= |x.indices| == |x.bankOf|
    && forall i :: 0 <= i < |entries| ==> Maps(tiles, entries[i], x.bankOf[i], x.indices[i], o)
  }

  lemma MappedMore(tiles0: seq<seq<nat>>, tiles: seq<seq<nat>>, entries: seq<nat>, x: Indexed, o: Options, entry: nat)
    requires x.Indexed? && Mapped(tiles0, entries, x, o) && tiles0 <= tiles && |entries| < |x.indices|
    requires Maps(tiles, entry, x.bankOf[|entries|], x.indices[|entries|], o)
    ensures Mapped(tiles, entries + [entry], x, o)
  {
    hide Flipped, TileOf, BankOf, FlipsX, FlipsY;
    var more := entries + [entry];
    forall i | 0 <= i < |more| ensures Maps(tiles, more[i], x.bankOf[i], x.indices[i], o) {
      if i < |entries| { assert Maps(tiles0, entries[i], x.bankOf[i], x.indices[i], o); }
    }
  }

  method MapTiles(x: Indexed, o: Options) returns (ok: bool, tiles: seq<seq<nat>>, entries: seq<nat>)
    requires o.Valid() && x.Indexed? && |x.indices| == |x.bankOf|
    requires forall i :: 0 <= i < |x.indices| ==> IsTile(x.indices[i], o) && x.bankOf[i] < 8
    ensures ok ==> |entries| == |x.indices| && Mapped(tiles, entries, x, o) && 0 < |tiles| <= 0x400
    ensures ok ==> TilesFit(tiles, o)
    ensures o.dedupe ==> KeptOnce(tiles, o)
    ensures !ok ==> |x.indices| >= 0x400
  {
    hide Maps, IsTile, Another;
    ClearIsTile(o);
    tiles := [seq(o.size * o.size, _ => 0)];
    var known := map[tiles[0] := 0];
    entries := [];
    for i := 0 to |x.indices|
      invariant |entries| == i && Mapped(tiles, entries, x, o) && Kept(tiles, known, o) && |tiles| <= 0x400
      invariant |tiles| <= i + 1 && (o.dedupe ==> AllKnown(tiles, known) && KeptOnce(tiles, o))
    {
      var more, known1, entry := AddTile(tiles, known, x.indices[i], x.bankOf[i], o);
      if |more| > 0x400 {
        return false, more, entries;
      }
      MappedMore(tiles, more, entries, x, o, entry);
      tiles, known, entries := more, known1, entries + [entry];
    }
    ok := true;
  }

  lemma ClearIsTile(o: Options)
    requires o.Valid()
    ensures IsTile(seq(o.size * o.size, _ => 0), o)
  {
  }

  ghost predicate TilesFit(tiles: seq<seq<nat>>, o: Options)
  {
    tiles != [] && tiles[0] == seq(o.size * o.size, _ => 0) && forall t :: 0 <= t < |tiles| ==> IsTile(tiles[t], o)
  }

  // ---- what is written --------------------------------------------------------------------------------------

  function TileBytes(o: Options): nat
  {
    PackedSize(o.size * o.size, o.bpp)
  }

  /** Tile after tile. */
  ghost predicate BytesOf(bytes: seq<nat>, tiles: seq<seq<nat>>, o: Options, done: nat)
  {
    && done <= |tiles| && |bytes| == done * TileBytes(o)
    && forall t :: 0 <= t < done ==> TileAt(bytes, t, tiles[t], o)
  }

  ghost predicate TileAt(bytes: seq<nat>, t: nat, tile: seq<nat>, o: Options)
  {
    && t * TileBytes(o) + TileBytes(o) <= |bytes|
    && Packs(tile, o.bpp, bytes[t * TileBytes(o)..t * TileBytes(o) + TileBytes(o)])
  }

  lemma StillThere(bytes: seq<nat>, more: seq<nat>, t: nat, tile: seq<nat>, o: Options)
    requires TileAt(bytes, t, tile, o)
    ensures TileAt(bytes + more, t, tile, o)
  {
    hide Packs;
    var a, b := t * TileBytes(o), t * TileBytes(o) + TileBytes(o);
    assert (bytes + more)[a..b] == bytes[a..b];
  }

  method AllBytes(tiles: seq<seq<nat>>, o: Options) returns (bytes: seq<nat>)
    requires o.Valid() && TilesFit(tiles, o)
    ensures BytesOf(bytes, tiles, o, |tiles|)
  {
    hide TileAt, Packs;
    bytes := [];
    for t := 0 to |tiles|
      invariant BytesOf(bytes, tiles, o, t)
    {
      assert IsTile(tiles[t], o);
      var packed := Pack(tiles[t], o.bpp);
      forall u | 0 <= u < t ensures TileAt(bytes + packed, u, tiles[u], o) {
        StillThere(bytes, packed, u, tiles[u], o);
      }
      AddedAt(bytes, packed, t, tiles[t], o);
      bytes := bytes + packed;
    }
  }

  lemma AddedAt(bytes: seq<nat>, packed: seq<nat>, t: nat, tile: seq<nat>, o: Options)
    requires |bytes| == t * TileBytes(o) && Packs(tile, o.bpp, packed) && IsTile(tile, o)
    ensures TileAt(bytes + packed, t, tile, o) && |bytes + packed| == (t + 1) * TileBytes(o)
  {
    Distribute(t, 1, TileBytes(o));
    assert (bytes + packed)[|bytes|..|bytes| + |packed|] == packed;
  }

  /** The first n entries of the map in their places of the wider one, and empty entries everywhere else. */
  ghost predicate Padded(padded: seq<nat>, entries: seq<nat>, cols: nat, rows: nat, width: nat, height: nat, n: nat)
    requires |padded| == width * height && |entries| == cols * rows
  {
    forall c: nat, r: nat :: c < width && r < height ==> PaddedAt(padded, entries, cols, rows, width, height, n, c, r)
  }

  ghost predicate PaddedAt(padded: seq<nat>, entries: seq<nat>, cols: nat, rows: nat, width: nat, height: nat, n: nat,
      c: nat, r: nat)
    requires |padded| == width * height && |entries| == cols * rows && c < width && r < height
  {
    Placed(c, r, width, height);
    if c < cols && r < rows then
      Placed(c, r, cols, rows);
      padded[Place(c, r, width)] == if Place(c, r, cols) < n then entries[Place(c, r, cols)] else 0
    else padded[Place(c, r, width)] == 0
  }

  lemma PadStep(padded: seq<nat>, entries: seq<nat>, cols: nat, rows: nat, width: nat, height: nat, col: nat, row: nat)
    requires |padded| == width * height && |entries| == cols * rows && cols <= width && rows <= height
    requires col < cols && row < rows
    requires Padded(padded, entries, cols, rows, width, height, Place(col, row, cols))
    ensures Place(col, row, width) < |padded| && Place(col, row, cols) < |entries|
    ensures Padded(padded[Place(col, row, width) := entries[Place(col, row, cols)]], entries, cols, rows, width, height,
      Place(col, row, cols) + 1)
  {
    hide Place;
    var p, n := Place(col, row, width), Place(col, row, cols);
    Placed(col, row, width, height);
    Placed(col, row, cols, rows);
    var padded2, n2 := padded[p := entries[n]], n + 1;
    forall c: nat, r: nat | c < width && r < height
      ensures PaddedAt(padded2, entries, cols, rows, width, height, n2, c, r)
    {
      assert PaddedAt(padded, entries, cols, rows, width, height, n, c, r);
      Placed(c, r, width, height);
      if c < cols && r < rows { Placed(c, r, cols, rows); }
    }
  }

  lemma PadNone(padded: seq<nat>, entries: seq<nat>, cols: nat, rows: nat, width: nat, height: nat)
    requires |padded| == width * height && |entries| == cols * rows && forall k :: 0 <= k < |padded| ==> padded[k] == 0
    ensures Padded(padded, entries, cols, rows, width, height, 0)
  {
    forall c: nat, r: nat | c < width && r < height
      ensures PaddedAt(padded, entries, cols, rows, width, height, 0, c, r)
    {
      Placed(c, r, width, height);
    }
  }

  method Pad(entries: seq<nat>, cols: nat, rows: nat, width: nat, height: nat) returns (padded: seq<nat>)
    requires |entries| == cols * rows && cols <= width && rows <= height
    ensures |padded| == width * height && Padded(padded, entries, cols, rows, width, height, cols * rows)
  {
    hide Padded, Place;
    padded := seq(width * height, _ => 0);
    PadNone(padded, entries, cols, rows, width, height);
    Ends(cols, rows);
    for row := 0 to rows
      invariant |padded| == width * height && Padded(padded, entries, cols, rows, width, height, Place(0, row, cols))
    {
      for col := 0 to cols
        invariant |padded| == width * height
        invariant Padded(padded, entries, cols, rows, width, height, Place(col, row, cols))
      {
        PadStep(padded, entries, cols, rows, width, height, col, row);
        padded := padded[Place(col, row, width) := entries[Place(col, row, cols)]];
        Onward(col, row, cols);
      }
      Onward(cols, row, cols);
    }
  }

  lemma Ends(cols: nat, rows: nat)
    ensures Place(0, 0, cols) == 0 && Place(0, rows, cols) == cols * rows
  {
  }

  lemma Onward(col: nat, row: nat, cols: nat)
    ensures Place(col + 1, row, cols) == Place(col, row, cols) + 1 && Place(cols, row, cols) == Place(0, row + 1, cols)
  {
    Distribute(row, 1, cols);
  }

  datatype Output = Output(palette: seq<int>, bytes: seq<nat>, count: nat, entries: seq<nat>, width: nat, height: nat)

  datatype Result = Made(out: Output) | NotWhole | Unindexed(why: Indexed) | TooManyTiles | MapTooWide(tiles: nat)

  /** The number an entry's tile has for pixel (x, y) of it, flipped as the entry says. */
  function NumberAt(bytes: seq<nat>, o: Options, e: nat, x: nat, y: nat): nat
    requires x < o.size && y < o.size
  {
    var k := Place(Mirror(x, o.size, FlipsX(e)), Mirror(y, o.size, FlipsY(e)), o.size);
    var from := TileOf(e) * TileBytes(o);
    if from + TileBytes(o) > |bytes| then 0 else Unpacked(bytes[from..from + TileBytes(o)], o.bpp, k)
  }

  /** What a tile layer shows at (x, y) of the map: -1 where it is clear. */
  function Shown(out: Output, o: Options, x: nat, y: nat): int
    requires o.Valid()
  {
    var at := Place(x / o.size, y / o.size, out.width);
    if at >= |out.entries| then -1
    else
      var e := out.entries[at];
      Looks(out.palette, o.bpp, BankOf(e), NumberAt(out.bytes, o, e, x % o.size, y % o.size))
  }

  function MapSize(n: nat): int
  {
    if n <= 32 then 32 else if n <= 64 then 64 else if n <= 128 then 128 else -1
  }

  /** Everything of a picture that has been made into tiles. */
  ghost predicate MadeFrom(image: Image, o: Options, cols: nat, rows: nat, blocks: seq<seq<int>>, x: Indexed,
      tiles: seq<seq<nat>>, entries: seq<nat>, out: Output)
  {
    && o.Valid() && image.Valid() && image.width == cols * o.size && image.height == rows * o.size
    && |blocks| == cols * rows && Squares(image, o.size, o.key, cols, rows, blocks) && AllColoured(blocks, o.size)
    && Reproduces(blocks, o.bpp, x) && |entries| == cols * rows && Mapped(tiles, entries, x, o) && TilesFit(tiles, o)
    && out.palette == x.palette && BytesOf(out.bytes, tiles, o, |tiles|)
    && cols <= out.width && rows <= out.height && |out.entries| == out.width * out.height
    && Padded(out.entries, entries, cols, rows, out.width, out.height, cols * rows)
  }

  /** A pixel of an entry is looked up as its tile, flipped, has it. */
  lemma EntryShows(out: Output, o: Options, tiles: seq<seq<nat>>, e: nat, pixels: seq<nat>, x: nat, y: nat)
    requires o.Valid() && Draws(tiles, e, pixels, o)
    requires BytesOf(out.bytes, tiles, o, |tiles|) && x < o.size && y < o.size
    ensures |pixels| == o.size * o.size && Place(x, y, o.size) < |pixels|
    ensures NumberAt(out.bytes, o, e, x, y) == pixels[Place(x, y, o.size)]
  {
    hide TileOf, FlipsX, FlipsY, Mirror, Unpacked;
    var t := TileOf(e);
    FlippedAt(tiles[t], o.size, FlipsX(e), FlipsY(e), x, y);
    assert TileAt(out.bytes, t, tiles[t], o);
  }

  /** The place of a pixel: its square, and where it lies in that. */
  lemma Locate(v: nat, n: nat, size: nat)
    requires size > 0
    ensures v < n * size <==> v / size < n
    ensures v == v / size * size + v % size && v % size < size
  {
    DivModIdentity(v, size);
    if v / size < n {
      Distribute(v / size, 1, size);
      MulMonotone(v / size + 1, n, size);
    } else {
      MulMonotone(n, v / size, size);
    }
  }

  /** Every pixel of the picture shows as it was. */
  lemma PixelShown(image: Image, o: Options, cols: nat, rows: nat, blocks: seq<seq<int>>, x: Indexed,
      tiles: seq<seq<nat>>, entries: seq<nat>, out: Output, px: nat, py: nat)
    requires MadeFrom(image, o, cols, rows, blocks, x, tiles, entries, out) && px < image.width && py < image.height
    ensures Shown(out, o, px, py) == image.ColourAt(px, py, o.key)
  {
    hide Squares, Mapped, BytesOf, Padded, TilesFit, Flipped, TileOf, BankOf, FlipsX, FlipsY, NumberAt, Looks,
      Image.ColourAt, Place, Square;
    Locate(px, cols, o.size);
    Locate(py, rows, o.size);
    var c, r, u, v := px / o.size, py / o.size, px % o.size, py % o.size;
    Placed(c, r, cols, rows);
    Placed(c, r, out.width, out.height);
    var i, k := Place(c, r, cols), Place(u, v, o.size);
    var e := out.entries[Place(c, r, out.width)];
    EntryIs(entries, out, cols, rows, c, r);
    BlockIs(image, o, cols, rows, blocks, c, r, u, v);
    EntryMaps(tiles, entries, x, o, i);
    EntryShows(out, o, tiles, e, x.indices[i], u, v);
    SameLook(blocks[i], x, o, tiles, e, i, k, out.palette);
  }

  lemma EntryIs(entries: seq<nat>, out: Output, cols: nat, rows: nat, c: nat, r: nat)
    requires |out.entries| == out.width * out.height && |entries| == cols * rows
    requires cols <= out.width && rows <= out.height
    requires Padded(out.entries, entries, cols, rows, out.width, out.height, cols * rows)
    ensures c < cols && r < rows ==>
      (Place(c, r, cols) < |entries| && Place(c, r, out.width) < |out.entries|
       && out.entries[Place(c, r, out.width)] == entries[Place(c, r, cols)])
    ensures c < out.width && r < out.height && (c >= cols || r >= rows) ==>
      (Place(c, r, out.width) < |out.entries| && out.entries[Place(c, r, out.width)] == 0)
  {
    hide Place;
    if c < out.width && r < out.height {
      assert PaddedAt(out.entries, entries, cols, rows, out.width, out.height, cols * rows, c, r);
      Placed(c, r, out.width, out.height);
      if c < cols && r < rows { Placed(c, r, cols, rows); }
    }
  }

  lemma BlockIs(image: Image, o: Options, cols: nat, rows: nat, blocks: seq<seq<int>>, c: nat, r: nat, u: nat, v: nat)
    requires o.Valid() && image.Valid() && image.width == cols * o.size && image.height == rows * o.size
    requires |blocks| == cols * rows && Squares(image, o.size, o.key, cols, rows, blocks) && AllColoured(blocks, o.size)
    requires c < cols && r < rows && u < o.size && v < o.size
    ensures Place(c, r, cols) < |blocks| && Place(u, v, o.size) < |blocks[Place(c, r, cols)]|
    ensures c * o.size + u < image.width && r * o.size + v < image.height
    ensures var colour := image.ColourAt(c * o.size + u, r * o.size + v, o.key);
      blocks[Place(c, r, cols)][Place(u, v, o.size)] == colour >= -1
  {
    hide Place, Square;
    Placed(c, r, cols, rows);
    Fits(c, cols, o.size);
    Fits(r, rows, o.size);
    var i := Place(c, r, cols);
    assert SquareIs(image, o.size, o.key, c, r, blocks[i]) && Coloured(blocks[i], o.size);
    SquareAt(image, c * o.size, r * o.size, o.size, o.key, u, v);
  }

  lemma EntryMaps(tiles: seq<seq<nat>>, entries: seq<nat>, x: Indexed, o: Options, i: nat)
    requires x.Indexed? && Mapped(tiles, entries, x, o) && i < |entries|
    ensures Maps(tiles, entries[i], x.bankOf[i], x.indices[i], o)
  {
    hide Maps;
  }

  /** Looking a number up in the entry's bank gives the colour it was made from. */
  lemma SameLook(b: seq<int>, x: Indexed, o: Options, tiles: seq<seq<nat>>, e: nat, i: nat, k: nat, palette: seq<int>)
    requires o.Valid() && x.Indexed? && i < |x.indices| == |x.bankOf| && k < |b| && b[k] >= -1 && palette == x.palette
    requires Stands(b, palette, o.bpp, x.bankOf[i], x.indices[i]) && Maps(tiles, e, x.bankOf[i], x.indices[i], o)
    requires TilesFit(tiles, o)
    ensures Looks(palette, o.bpp, BankOf(e), x.indices[i][k]) == b[k]
  {
    hide Flipped, TileOf, BankOf, FlipsX, FlipsY;
    if o.bpp == 4 && TileOf(e) == 0 {
      ClearStays(tiles[0], o.size, FlipsX(e), FlipsY(e), k);
    }
  }

  lemma ClearStays(tile: seq<nat>, size: nat, fx: bool, fy: bool, k: nat)
    requires tile == seq(size * size, _ => 0) && k < size * size
    ensures Flipped(tile, size, fx, fy)[k] == 0
  {
    PlaceOf(k, size, size);
    FlippedAt(tile, size, fx, fy, k % size, k / size);
  }

  /** And where the map goes on past the picture nothing shows. */
  lemma PaddingShown(image: Image, o: Options, cols: nat, rows: nat, blocks: seq<seq<int>>, x: Indexed,
      tiles: seq<seq<nat>>, entries: seq<nat>, out: Output, px: nat, py: nat)
    requires MadeFrom(image, o, cols, rows, blocks, x, tiles, entries, out)
    requires px < out.width * o.size && py < out.height * o.size && (px >= image.width || py >= image.height)
    ensures Shown(out, o, px, py) == -1
  {
    hide Squares, Mapped, BytesOf, Padded, TilesFit, Flipped, NumberAt, Looks, Place, Reproduces;
    Locate(px, cols, o.size);
    Locate(py, rows, o.size);
    Locate(px, out.width, o.size);
    Locate(py, out.height, o.size);
    EntryIs(entries, out, cols, rows, px / o.size, py / o.size);
    ZeroDraws(tiles, o);
    EntryShows(out, o, tiles, 0, tiles[0], px % o.size, py % o.size);
    NothingLooks(out.palette, o.bpp, BankOf(0));
  }

  lemma ZeroDraws(tiles: seq<seq<nat>>, o: Options)
    requires TilesFit(tiles, o)
    ensures tiles != [] && Draws(tiles, 0, tiles[0], o) && forall k :: 0 <= k < |tiles[0]| ==> tiles[0][k] == 0
  {
    hide Flipped;
    FlippedNot(tiles[0], o.size);
  }

  lemma NothingLooks(palette: seq<int>, bpp: nat, bank: nat)
    ensures Looks(palette, bpp, bank, 0) == -1
  {
  }

  /** The order the blocks are given their banks in: every block is somewhere in it. */
  predicate Orders(order: seq<nat>, n: nat)
  {
    (forall i :: 0 <= i < n ==> i in order) && forall i :: i in order ==> i < n
  }

  /** A picture as a palette, tiles and a map. When that succeeds the map shows the picture, and nothing beside it. */
  method MakeTiles(image: Image, o: Options, order: seq<nat>) returns (r: Result)
    requires image.Valid() && o.Valid() && Orders(order, image.width / o.size * (image.height / o.size))
    ensures r.NotWhole? <==> image.width % o.size != 0 || image.height % o.size != 0
    ensures r.Made? ==> forall x: nat, y: nat :: x < image.width && y < image.height ==>
      Shown(r.out, o, x, y) == image.ColourAt(x, y, o.key)
    ensures r.Made? ==> forall x: nat, y: nat ::
      x < r.out.width * o.size && y < r.out.height * o.size && (x >= image.width || y >= image.height) ==>
      Shown(r.out, o, x, y) == -1
    ensures r.TooManyTiles? ==> image.width / o.size * (image.height / o.size) >= 0x400
    ensures r.MapTooWide? ==>
      o.pad && r.tiles > 128 && (r.tiles == image.width / o.size || r.tiles == image.height / o.size)
    ensures r.Unindexed? ==>
      (r.why.BadColours? && o.bpp == 8) || (o.bpp == 4 && (r.why.BadBlock? || (r.why.BadBanks? && r.why.count > 8)))
    ensures r.Made? ==>
      image.width <= r.out.width * o.size && image.height <= r.out.height * o.size && 0 < r.out.count <= 0x400
  {
    hide Squares, Mapped, BytesOf, Padded, TilesFit, Reproduces, AllColoured, Shown, Image.ColourAt, MadeFrom;
    var size := o.size;
    if image.width % size != 0 || image.height % size != 0 {
      return NotWhole;
    }
    var cols, rows := image.width / size, image.height / size;
    DivModIdentity(image.width, size);
    DivModIdentity(image.height, size);
    var blocks := Blocks(image, size, o.key, cols, rows);
    var x := Index(blocks, order, o.bpp, 8);
    if !x.Indexed? {
      return Unindexed(x);
    }
    IndexedTiles(blocks, x, o);
    var ok, tiles, entries := MapTiles(x, o);
    if !ok {
      return TooManyTiles;
    }
    var width := if o.pad then MapSize(cols) else cols;
    if width < 0 {
      return MapTooWide(cols);
    }
    var height := if o.pad then MapSize(rows) else rows;
    if height < 0 {
      return MapTooWide(rows);
    }
    var padded := Pad(entries, cols, rows, width, height);
    var bytes := AllBytes(tiles, o);
    var out := Output(x.palette, bytes, |tiles|, padded, width, height);
    assert MadeFrom(image, o, cols, rows, blocks, x, tiles, entries, out) by {
      IsMade(image, o, cols, rows, blocks, x, tiles, entries, out);
    }
    forall px: nat, py: nat | px < image.width && py < image.height
      ensures Shown(out, o, px, py) == image.ColourAt(px, py, o.key)
    {
      PixelShown(image, o, cols, rows, blocks, x, tiles, entries, out, px, py);
    }
    forall px: nat, py: nat | px < width * size && py < height * size && (px >= image.width || py >= image.height)
      ensures Shown(out, o, px, py) == -1
    {
      PaddingShown(image, o, cols, rows, blocks, x, tiles, entries, out, px, py);
    }
    MulMonotone(cols, width, size);
    MulMonotone(rows, height, size);
    r := Made(out);
  }

  lemma IsMade(image: Image, o: Options, cols: nat, rows: nat, blocks: seq<seq<int>>, x: Indexed,
      tiles: seq<seq<nat>>, entries: seq<nat>, out: Output)
    requires o.Valid() && image.Valid() && image.width == cols * o.size && image.height == rows * o.size
    requires |blocks| == cols * rows && Squares(image, o.size, o.key, cols, rows, blocks) && AllColoured(blocks, o.size)
    requires Reproduces(blocks, o.bpp, x) && |entries| == cols * rows
    requires Mapped(tiles, entries, x, o) && TilesFit(tiles, o)
    requires out.palette == x.palette && BytesOf(out.bytes, tiles, o, |tiles|)
    requires cols <= out.width && rows <= out.height && |out.entries| == out.width * out.height
    requires Padded(out.entries, entries, cols, rows, out.width, out.height, cols * rows)
    ensures MadeFrom(image, o, cols, rows, blocks, x, tiles, entries, out)
  {
    hide Squares, Mapped, BytesOf, Padded, TilesFit, Reproduces, AllColoured;
  }

  lemma IndexedTiles(blocks: seq<seq<int>>, x: Indexed, o: Options)
    requires Reproduces(blocks, o.bpp, x) && AllColoured(blocks, o.size) && o.Valid()
    ensures |x.indices| == |x.bankOf| && forall i :: 0 <= i < |x.indices| ==> IsTile(x.indices[i], o)
  {
    forall i | 0 <= i < |x.indices| ensures IsTile(x.indices[i], o) {
      assert Stands(blocks[i], x.palette, o.bpp, x.bankOf[i], x.indices[i]) && Coloured(blocks[i], o.size);
    }
  }
}
