/** The integer core of the `two_point_five_d` viewer: the overhead map view drawn into a
    flat buffer `map_sc` times the map's size, the wall map it shows, and the player's
    grid movement through it. */
module TwoPointFiveD {
  import Grid

  /** Map size in cells. */
  const MAP_WIDTH := 128
  const MAP_HEIGHT := 64
  /** Side of the square block of view pixels that shows one map cell. */
  const MAP_SC := 4
  /** The value of a wall cell; open cells hold 0. */
  const WALL: bv8 := 0xff

  // ---------------------------------------------------------------------------------------
  // Drawing into the map view

  /** View pixel i lies in the block of map cell (xi, yi): its column and row in the view,
      `mapWidth * mapSc` pixels wide, fall in the cell's span of `mapSc` columns and rows. */
  predicate InBlock(mapWidth: nat, mapSc: nat, xi: nat, yi: nat, i: nat)
    requires mapWidth * mapSc > 0
  {
    var viewWidth := mapWidth * mapSc;
    xi * mapSc <= i % viewWidth < xi * mapSc + mapSc &&
    yi * mapSc <= i / viewWidth < yi * mapSc + mapSc
  }

  /** The part of the block painted once the column offsets before `ox`, and the first `oy`
      rows at column offset `ox`, are done (the order of `big_pixel`'s loops). */
  predicate Painted(mapWidth: nat, mapSc: nat, xi: nat, yi: nat, ox: int, oy: int, i: nat)
    requires mapWidth * mapSc > 0
  {
    var viewWidth := mapWidth * mapSc;
    var a, b := i % viewWidth - xi * mapSc, i / viewWidth - yi * mapSc;
    0 <= a < mapSc && 0 <= b < mapSc && (a < ox || (a == ox && b < oy))
  }

  /** The view index of the top-left pixel of cell (xi, yi)'s block. */
  function CornerIdx(mapWidth: nat, mapSc: nat, xi: nat, yi: nat): nat
  {
    Grid.Idx(mapWidth * mapSc, xi * mapSc, yi * mapSc)
  }

  /** `small_pixel`: writes exactly the top-left pixel of the cell's block. */
  method SmallPixel(mapBuffer: array<bv32>, mapWidth: nat, mapSc: nat, yi: nat, xi: nat,
                    color: bv32)
    requires CornerIdx(mapWidth, mapSc, xi, yi) < mapBuffer.Length
    modifies mapBuffer
    ensures mapBuffer[..] == old(mapBuffer[..])[CornerIdx(mapWidth, mapSc, xi, yi) := color]
  {
    var pi := (yi * mapSc) * (mapWidth * mapSc) + (xi * mapSc);
    mapBuffer[pi] := color;
  }

  /** `big_pixel`: paints every pixel of cell (xi, yi)'s `mapSc` by `mapSc` block with
      `color` and leaves every other pixel alone. The block's last pixel must lie in the
      buffer. */
  method BigPixel(mapBuffer: array<bv32>, mapWidth: nat, mapSc: nat, yi: nat, xi: nat,
                  color: bv32)
    requires xi < mapWidth
    requires mapSc > 0 ==>
      Grid.Idx(mapWidth * mapSc, xi * mapSc + mapSc - 1, yi * mapSc + mapSc - 1) < mapBuffer.Length
    modifies mapBuffer
    ensures mapSc == 0 ==> mapBuffer[..] == old(mapBuffer[..])
    ensures mapSc > 0 ==> mapWidth * mapSc > 0 && forall i :: 0 <= i < mapBuffer.Length ==>
      mapBuffer[i] == if InBlock(mapWidth, mapSc, xi, yi, i) then color else old(mapBuffer[i])
  {
    ghost var before := mapBuffer[..];
    if mapSc > 0 {
      Grid.MulMonotone(xi + 1, mapWidth, mapSc);
    }
    for ox := 0 to mapSc
      invariant mapSc > 0 ==> forall i :: 0 <= i < mapBuffer.Length ==>
        mapBuffer[i] == if Painted(mapWidth, mapSc, xi, yi, ox, 0, i) then color else before[i]
      invariant mapSc == 0 ==> mapBuffer[..] == before
    {
      for oy := 0 to mapSc
        invariant forall i :: 0 <= i < mapBuffer.Length ==>
          mapBuffer[i] == if Painted(mapWidth, mapSc, xi, yi, ox, oy, i) then color else before[i]
      {
        var pi := (yi * mapSc + oy) * (mapWidth * mapSc) + (xi * mapSc + ox);
        PaintStep(mapBuffer.Length, mapWidth, mapSc, xi, yi, ox, oy);
        mapBuffer[pi] := color;
      }
      ColumnDone(mapBuffer.Length, mapWidth, mapSc, xi, yi, ox);
    }
  }

  /** Painting offset (ox, oy) of the block adds exactly that pixel to the painted part. */
  lemma PaintStep(length: nat, mapWidth: nat, mapSc: nat, xi: nat, yi: nat, ox: nat, oy: nat)
    requires xi < mapWidth && ox < mapSc && oy < mapSc
    requires Grid.Idx(mapWidth * mapSc, xi * mapSc + mapSc - 1, yi * mapSc + mapSc - 1) < length
    ensures mapWidth * mapSc > 0
    ensures var pi := Grid.Idx(mapWidth * mapSc, xi * mapSc + ox, yi * mapSc + oy);
      && pi < length
      && Painted(mapWidth, mapSc, xi, yi, ox, oy + 1, pi)
      && forall i :: 0 <= i < length && i != pi ==>
        (Painted(mapWidth, mapSc, xi, yi, ox, oy + 1, i) <==> Painted(mapWidth, mapSc, xi, yi, ox, oy, i))
  {
    var viewWidth := mapWidth * mapSc;
    Grid.MulMonotone(xi + 1, mapWidth, mapSc);
    var pi := Grid.Idx(viewWidth, xi * mapSc + ox, yi * mapSc + oy);
    Grid.IdxMonotone(viewWidth, xi * mapSc + ox, yi * mapSc + oy, xi * mapSc + mapSc - 1, yi * mapSc + mapSc - 1);
    Grid.IdxDivMod(viewWidth, xi * mapSc + ox, yi * mapSc + oy);
    forall i | 0 <= i < length && i != pi
      ensures Painted(mapWidth, mapSc, xi, yi, ox, oy + 1, i) <==> Painted(mapWidth, mapSc, xi, yi, ox, oy, i)
    {
      Grid.IdxOfDivMod(viewWidth, i);
    }
  }

  /** A fully painted column offset is the start of the next one. */
  lemma ColumnDone(length: nat, mapWidth: nat, mapSc: nat, xi: nat, yi: nat, ox: nat)
    requires mapWidth * mapSc > 0
    ensures forall i :: 0 <= i < length ==>
      (Painted(mapWidth, mapSc, xi, yi, ox, mapSc, i) <==> Painted(mapWidth, mapSc, xi, yi, ox + 1, 0, i))
  {
  }

  /** For a cell of the map and a view buffer of `mapWidth * mapSc * mapHeight * mapSc`
      pixels, the whole block lies in the buffer, so `big_pixel` may be called. */
  lemma BlockInBounds(mapWidth: nat, mapHeight: nat, mapSc: nat, xi: nat, yi: nat)
    requires xi < mapWidth && yi < mapHeight && mapSc > 0
    ensures Grid.Idx(mapWidth * mapSc, xi * mapSc + mapSc - 1, yi * mapSc + mapSc - 1)
            < mapWidth * mapSc * mapHeight * mapSc
  {
    Grid.MulMonotone(xi + 1, mapWidth, mapSc);
    Grid.MulMonotone(yi + 1, mapHeight, mapSc);
    Grid.IdxBound(mapWidth * mapSc, mapHeight * mapSc, xi * mapSc + mapSc - 1, yi * mapSc + mapSc - 1);
    assert mapWidth * mapSc * mapHeight * mapSc == (mapWidth * mapSc) * (mapHeight * mapSc);
  }

  /** The view index of pixel (ox, oy) of cell (xi, yi)'s block. */
  function BlockIdx(mapWidth: nat, mapSc: nat, xi: nat, yi: nat, ox: nat, oy: nat): nat
  {
    Grid.Idx(mapWidth * mapSc, xi * mapSc + ox, yi * mapSc + oy)
  }

  /** Every offset (ox, oy) below `mapSc` names a pixel of the block. */
  lemma BlockCells(mapWidth: nat, mapSc: nat, xi: nat, yi: nat)
    requires xi < mapWidth && mapSc > 0
    ensures mapWidth * mapSc > 0
    ensures forall ox: nat, oy: nat :: ox < mapSc && oy < mapSc ==>
      InBlock(mapWidth, mapSc, xi, yi, BlockIdx(mapWidth, mapSc, xi, yi, ox, oy))
  {
    Grid.MulMonotone(xi + 1, mapWidth, mapSc);
    forall ox: nat, oy: nat | ox < mapSc && oy < mapSc
      ensures InBlock(mapWidth, mapSc, xi, yi, BlockIdx(mapWidth, mapSc, xi, yi, ox, oy))
    {
      Grid.IdxDivMod(mapWidth * mapSc, xi * mapSc + ox, yi * mapSc + oy);
    }
  }

  /** The `small_pixel` target is the block's top-left pixel: it belongs to the block and no
      pixel of the block has a smaller index. */
  lemma CornerIsFirst(mapWidth: nat, mapSc: nat, xi: nat, yi: nat)
    requires xi < mapWidth && mapSc > 0
    ensures mapWidth * mapSc > 0
    ensures InBlock(mapWidth, mapSc, xi, yi, CornerIdx(mapWidth, mapSc, xi, yi))
    ensures forall i: nat :: InBlock(mapWidth, mapSc, xi, yi, i) ==>
      CornerIdx(mapWidth, mapSc, xi, yi) <= i
  {
    var viewWidth := mapWidth * mapSc;
    Grid.MulMonotone(xi + 1, mapWidth, mapSc);
    Grid.IdxDivMod(viewWidth, xi * mapSc, yi * mapSc);
    forall i: nat | InBlock(mapWidth, mapSc, xi, yi, i)
      ensures CornerIdx(mapWidth, mapSc, xi, yi) <= i
    {
      Grid.IdxOfDivMod(viewWidth, i);
      Grid.IdxMonotone(viewWidth, xi * mapSc, yi * mapSc, i % viewWidth, i / viewWidth);
    }
  }

  /** Cells whose blocks overlap are the same cell. */
  lemma SpanDisjoint(mapSc: nat, xi: nat, xi': nat, c: int)
    requires xi * mapSc <= c < xi * mapSc + mapSc && xi' * mapSc <= c < xi' * mapSc + mapSc
    ensures xi == xi'
  {
    if xi < xi' {
      assert (xi + 1) * mapSc == xi * mapSc + mapSc;
      Grid.MulMonotone(xi + 1, xi', mapSc);
    } else if xi' < xi {
      assert (xi' + 1) * mapSc == xi' * mapSc + mapSc;
      Grid.MulMonotone(xi' + 1, xi, mapSc);
    }
  }

  /** The blocks of two different cells share no pixel, so drawing one cell never disturbs
      another. */
  lemma BlocksDisjoint(mapWidth: nat, mapSc: nat, xi: nat, yi: nat, xi': nat, yi': nat, i: nat)
    requires mapWidth * mapSc > 0
    requires InBlock(mapWidth, mapSc, xi, yi, i) && InBlock(mapWidth, mapSc, xi', yi', i)
    ensures xi == xi' && yi == yi'
  {
    var viewWidth := mapWidth * mapSc;
    SpanDisjoint(mapSc, xi, xi', i % viewWidth);
    SpanDisjoint(mapSc, yi, yi', i / viewWidth);
  }

  // ---------------------------------------------------------------------------------------
  // The wall map

  /** The cells the viewer walls in: rows 8 and `MAP_HEIGHT - 8`, columns 4 and
      `MAP_WIDTH - 12`. */
  predicate IsWallCell(x: nat, y: nat)
  {
    y == 8 || y == MAP_HEIGHT - 8 || x == 4 || x == MAP_WIDTH - 12
  }

  /** A cells buffer holding exactly the viewer's walls. */
  predicate IsWallMap(cells: array<bv8>)
    reads cells
  {
    cells.Length == MAP_WIDTH * MAP_HEIGHT &&
    forall x: nat, y: nat :: x < MAP_WIDTH && y < MAP_HEIGHT ==>
      cells[Grid.Idx(MAP_WIDTH, x, y)] == if IsWallCell(x, y) then WALL else 0
  }

  /** The cells initialisation: a zeroed cells, then two wall rows drawn across and two wall
      columns drawn down. */
  method InitMap() returns (cells: array<bv8>)
    ensures fresh(cells) && IsWallMap(cells)
  {
    cells := new bv8[MAP_WIDTH * MAP_HEIGHT](_ => 0);
    for i := 0 to MAP_WIDTH
      invariant forall x: nat, y: nat :: x < MAP_WIDTH && y < MAP_HEIGHT ==>
        cells[Grid.Idx(MAP_WIDTH, x, y)] == if (y == 8 || y == MAP_HEIGHT - 8) && x < i then WALL else 0
    {
      var x := i;
      var y := 8;
      cells[y * MAP_WIDTH + x] := WALL;
      y := MAP_HEIGHT - 8;
      cells[y * MAP_WIDTH + x] := WALL;
    }
    for i := 0 to MAP_HEIGHT
      invariant forall x: nat, y: nat :: x < MAP_WIDTH && y < MAP_HEIGHT ==>
        cells[Grid.Idx(MAP_WIDTH, x, y)] ==
          if y == 8 || y == MAP_HEIGHT - 8 || ((x == 4 || x == MAP_WIDTH - 12) && y < i)
          then WALL else 0
    {
      var x := 4;
      var y := i;
      cells[y * MAP_WIDTH + x] := WALL;
      x := MAP_WIDTH - 12;
      cells[y * MAP_WIDTH + x] := WALL;
    }
  }

  // ---------------------------------------------------------------------------------------
  // The map view

  const WALL_COLOR: bv32 := 0xff9f_6054
  const FLOOR_COLOR: bv32 := 0xff11_1511

  /** The view color of map cell (xi, yi): any nonzero cell is drawn as wall. */
  function CellColor(cells: array<bv8>, xi: nat, yi: nat): bv32
    requires cells.Length == MAP_WIDTH * MAP_HEIGHT && xi < MAP_WIDTH && yi < MAP_HEIGHT
    reads cells
  {
    if cells[Grid.Idx(MAP_WIDTH, xi, yi)] != 0 then WALL_COLOR else FLOOR_COLOR
  }

  /** No pixel of one cell's block lies in another cell's block. */
  lemma OtherBlocksApart(xi: nat, yi: nat)
    requires xi < MAP_WIDTH && yi < MAP_HEIGHT
    ensures forall xi': nat, yi': nat, ox: nat, oy: nat ::
      xi' < MAP_WIDTH && ox < MAP_SC && oy < MAP_SC && (xi', yi') != (xi, yi) ==>
        !InBlock(MAP_WIDTH, MAP_SC, xi, yi, BlockIdx(MAP_WIDTH, MAP_SC, xi', yi', ox, oy))
  {
    forall xi': nat, yi': nat, ox: nat, oy: nat |
      xi' < MAP_WIDTH && ox < MAP_SC && oy < MAP_SC && (xi', yi') != (xi, yi)
      ensures !InBlock(MAP_WIDTH, MAP_SC, xi, yi, BlockIdx(MAP_WIDTH, MAP_SC, xi', yi', ox, oy))
    {
      BlockCells(MAP_WIDTH, MAP_SC, xi', yi');
      if InBlock(MAP_WIDTH, MAP_SC, xi, yi, BlockIdx(MAP_WIDTH, MAP_SC, xi', yi', ox, oy)) {
        BlocksDisjoint(MAP_WIDTH, MAP_SC, xi, yi, xi', yi', BlockIdx(MAP_WIDTH, MAP_SC, xi', yi', ox, oy));
      }
    }
  }

  /** Drawing the map walls into the view: every pixel of every cell's block shows that
      cell's color. */
  method DrawMapView(cells: array<bv8>, mapBuffer: array<bv32>)
    requires cells.Length == MAP_WIDTH * MAP_HEIGHT
    requires mapBuffer.Length == MAP_WIDTH * MAP_SC * MAP_HEIGHT * MAP_SC
    modifies mapBuffer
    ensures forall xi: nat, yi: nat, ox: nat, oy: nat ::
      xi < MAP_WIDTH && yi < MAP_HEIGHT && ox < MAP_SC && oy < MAP_SC ==>
        BlockIdx(MAP_WIDTH, MAP_SC, xi, yi, ox, oy) < mapBuffer.Length &&
        mapBuffer[BlockIdx(MAP_WIDTH, MAP_SC, xi, yi, ox, oy)] == CellColor(cells, xi, yi)
  {
    for yi := 0 to MAP_HEIGHT
      invariant forall xi': nat, yi': nat, ox: nat, oy: nat ::
        xi' < MAP_WIDTH && yi' < yi && ox < MAP_SC && oy < MAP_SC ==>
          BlockIdx(MAP_WIDTH, MAP_SC, xi', yi', ox, oy) < mapBuffer.Length &&
          mapBuffer[BlockIdx(MAP_WIDTH, MAP_SC, xi', yi', ox, oy)] == CellColor(cells, xi', yi')
    {
      for xi := 0 to MAP_WIDTH
        invariant forall xi': nat, yi': nat, ox: nat, oy: nat ::
          xi' < MAP_WIDTH && (yi' < yi || (yi' == yi && xi' < xi)) && ox < MAP_SC && oy < MAP_SC ==>
            BlockIdx(MAP_WIDTH, MAP_SC, xi', yi', ox, oy) < mapBuffer.Length &&
            mapBuffer[BlockIdx(MAP_WIDTH, MAP_SC, xi', yi', ox, oy)] == CellColor(cells, xi', yi')
      {
        var color := if cells[yi * MAP_WIDTH + xi] != 0 then WALL_COLOR else FLOOR_COLOR;
        BlockInBounds(MAP_WIDTH, MAP_HEIGHT, MAP_SC, xi, yi);
        BlockCells(MAP_WIDTH, MAP_SC, xi, yi);
        OtherBlocksApart(xi, yi);
        BigPixel(mapBuffer, MAP_WIDTH, MAP_SC, yi, xi, color);
      }
    }
  }

  // ---------------------------------------------------------------------------------------
  // Movement

  /** The arrow keys held during a frame. */
  datatype Keys = Keys(left: bool, right: bool, up: bool, down: bool)

  /** One frame of grid movement: left, right, up and down in turn, each one cell and only
      into an open cell of the cells, followed by the wrap of both coordinates into the cells.
      The player stays on the cells, moves at most one cell along each axis and only in a
      direction whose key is held, and ends either where it started or on an open cell. */
  method MoveStep(cells: array<bv8>, x: nat, y: nat, keys: Keys) returns (x': nat, y': nat)
    requires cells.Length == MAP_WIDTH * MAP_HEIGHT && x < MAP_WIDTH && y < MAP_HEIGHT
    ensures x' < MAP_WIDTH && y' < MAP_HEIGHT
    ensures -1 <= x' - x <= 1 && -1 <= y' - y <= 1
    ensures (x' < x ==> keys.left) && (x' > x ==> keys.right)
    ensures (y' < y ==> keys.up) && (y' > y ==> keys.down)
    ensures (x', y') == (x, y) || cells[Grid.Idx(MAP_WIDTH, x', y')] == 0
    ensures x' != x ==> cells[Grid.Idx(MAP_WIDTH, x', y)] == 0
    ensures keys.left && !keys.right && x > 0 && cells[Grid.Idx(MAP_WIDTH, x - 1, y)] == 0 ==> x' == x - 1
    ensures keys.right && !keys.left && x < MAP_WIDTH - 1 && cells[Grid.Idx(MAP_WIDTH, x + 1, y)] == 0 ==> x' == x + 1
    ensures keys.up && !keys.down && y > 0 && cells[Grid.Idx(MAP_WIDTH, x', y - 1)] == 0 ==> y' == y - 1
    ensures keys.down && !keys.up && y < MAP_HEIGHT - 1 && cells[Grid.Idx(MAP_WIDTH, x', y + 1)] == 0 ==> y' == y + 1
  {
    x', y' := x, y;
    ghost var moved := false;
    if keys.left && x' > 0 && cells[y' * MAP_WIDTH + (x' - 1)] == 0 {
      x' := x' - 1;
      moved := true;
    }
    if keys.right && x' < MAP_WIDTH - 1 && cells[y' * MAP_WIDTH + (x' + 1)] == 0 {
      x' := x' + 1;
      moved := true;
    }
    if keys.up && y' > 0 && cells[(y' - 1) * MAP_WIDTH + x'] == 0 {
      y' := y' - 1;
      moved := true;
    }
    if keys.down && y' < MAP_HEIGHT - 1 && cells[(y' + 1) * MAP_WIDTH + x'] == 0 {
      y' := y' + 1;
      moved := true;
    }
    assert moved ==> cells[Grid.Idx(MAP_WIDTH, x', y')] == 0;
    x' := x' % MAP_WIDTH;
    y' := y' % MAP_HEIGHT;
  }

  /** The player's position over a run of frames, starting at a quarter of the way across
      and down the cells. On the wall cells the player never stands in a wall and never leaves
      the room enclosed by the four wall lines. */
  method Walk(cells: array<bv8>, frames: seq<Keys>) returns (x: nat, y: nat)
    requires IsWallMap(cells)
    ensures x < MAP_WIDTH && y < MAP_HEIGHT && cells[Grid.Idx(MAP_WIDTH, x, y)] == 0
    ensures 4 < x < MAP_WIDTH - 12 && 8 < y < MAP_HEIGHT - 8
  {
    x := MAP_WIDTH / 4;
    y := MAP_HEIGHT / 4;
    for k := 0 to |frames|
      invariant 4 < x < MAP_WIDTH - 12 && 8 < y < MAP_HEIGHT - 8
      invariant cells[Grid.Idx(MAP_WIDTH, x, y)] == 0
    {
      x, y := MoveStep(cells, x, y, frames[k]);
    }
  }
}
