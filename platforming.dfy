/** The integer core of the `platforming` game library: the bit-packed tile map and its
    collision lookup, pixel and sprite drawing into flat row-major ARGB buffers, the RGBA to
    ARGB packing of decoded images, and the character's hit points and invincibility frames. */
module Platforming {
  import opened FixedWidth
  import Grid

  // ---------------------------------------------------------------------------------------
  // Tile map

  /** Bit k of a byte, counting from the least significant. */
  predicate TestBit(b: bv8, k: nat)
    requires k < 8
  {
    (b >> k) & 1 == 1
  }

  /** The bits of a byte, most significant first. */
  function ByteBits(b: bv8): (bits: seq<bool>)
    ensures |bits| == 8
  {
    seq(8, k requires 0 <= k < 8 => TestBit(b, 7 - k))
  }

  /** Reference reading of a level bitmap: bit i of the map is bit i of the byte stream, each
      byte read most significant bit first. */
  function Unpack(bytes: seq<bv8>): (bits: seq<bool>)
    ensures |bits| == 8 * |bytes|
  {
    if bytes == [] then [] else ByteBits(bytes[0]) + Unpack(bytes[1..])
  }

  /** Bit i of the unpacked map comes from byte i / 8, at position i % 8 from the top. */
  lemma {:induction false} UnpackAt(bytes: seq<bv8>, i: nat)
    requires i < 8 * |bytes|
    ensures Unpack(bytes)[i] == ByteBits(bytes[i / 8])[i % 8]
  {
    if i >= 8 {
      UnpackAt(bytes[1..], i - 8);
      assert (i - 8) / 8 == i / 8 - 1 && (i - 8) % 8 == i % 8;
    }
  }

  /** Masking a byte with a single bit keeps exactly that bit. */
  lemma MaskBit(b: bv8, k: nat)
    requires k < 8
    ensures b & (1 << k) == 0 || b & (1 << k) == 1 << k
    ensures b & (1 << k) != 0 <==> TestBit(b, k)
  {
    if k == 0 {} else if k == 1 {} else if k == 2 {} else if k == 3 {}
    else if k == 4 {} else if k == 5 {} else if k == 6 {} else {}
  }

  /** A level bitmap holds a bit for every tile, and tile indices fit the `u32` arithmetic. */
  predicate TileMapFits(levelBytes: seq<bv8>, levelWidth: u32, levelHeight: u32)
  {
    levelWidth * levelHeight <= 8 * |levelBytes| && levelWidth * levelHeight <= 0x1_0000_0000
  }

  /** Reference: tile (tileX, tileY) of a map `levelWidth` tiles wide is a wall tile. */
  predicate IsWall(levelBytes: seq<bv8>, levelWidth: nat, tileX: nat, tileY: nat)
  {
    var i := Grid.Idx(levelWidth, tileX, tileY);
    i < 8 * |levelBytes| && Unpack(levelBytes)[i]
  }

  /** Reference: the pixel point (x, y) lies inside the map on a wall tile, for tiles of
      `tileWidth` by `tileHeight` pixels. */
  predicate WallUnder(levelBytes: seq<bv8>, levelWidth: nat, levelHeight: nat,
                      tileWidth: nat, tileHeight: nat, x: int, y: int)
    requires tileWidth > 0 && tileHeight > 0
  {
    && 0 <= x && 0 <= y
    && x / tileWidth < levelWidth && y / tileHeight < levelHeight
    && IsWall(levelBytes, levelWidth, x / tileWidth, y / tileHeight)
  }

  /** Masking byte i / 8 with the bit for position i % 8 from the top reads bit i of the map. */
  lemma MaskedBit(levelBytes: seq<bv8>, i: nat)
    requires i < 8 * |levelBytes|
    ensures var m := levelBytes[i / 8] & (1 << (7 - i % 8));
      (m == 0 || m == 1 << (7 - i % 8)) && (m != 0 <==> Unpack(levelBytes)[i])
  {
    UnpackAt(levelBytes, i);
    MaskBit(levelBytes[i / 8], 7 - i % 8);
  }

  /** `get_tile_type`: 0 outside the map; inside, the tile's bit of the bitmap, masked in place.
      A nonzero result is exactly the wall bit of the reference reading. */
  function GetTileType(levelBytes: seq<bv8>, levelWidth: u32, levelHeight: u32, tileX: u32, tileY: u32)
    : (r: bv8)
    requires TileMapFits(levelBytes, levelWidth, levelHeight)
    ensures tileX >= levelWidth || tileY >= levelHeight ==> r == 0
    ensures tileX < levelWidth && tileY < levelHeight ==>
      && (r == 0 || r == 1 << (7 - Grid.Idx(levelWidth, tileX, tileY) % 8))
      && (r != 0 <==> IsWall(levelBytes, levelWidth, tileX, tileY))
  {
    if tileX >= levelWidth then 0
    else if tileY >= levelHeight then 0
    else
      var origInd := Grid.Idx(levelWidth, tileX, tileY);
      Grid.IdxBound(levelWidth, levelHeight, tileX, tileY);
      MaskedBit(levelBytes, origInd);
      var ind := origInd / 8;
      var offset := 7 - origInd % 8;
      var mask: bv8 := 1 << offset;
      levelBytes[ind] & mask
  }

  /** `get_tile_type_level_coords`: the tile under a point in level pixels; 0 left of or above
      the level. Tile sizes arrive as `usize` and are truncated to `u32` before dividing. */
  function GetTileTypeLevelCoords(
    levelBytes: seq<bv8>, levelWidth: u32, levelHeight: u32,
    tileWidth: nat, tileHeight: nat, x: i32, y: i32): (r: bv8)
    requires TileMapFits(levelBytes, levelWidth, levelHeight)
    requires tileWidth % 0x1_0000_0000 != 0 && tileHeight % 0x1_0000_0000 != 0
    ensures r != 0 <==> WallUnder(levelBytes, levelWidth, levelHeight,
      tileWidth % 0x1_0000_0000, tileHeight % 0x1_0000_0000, x, y)
  {
    if x < 0 then 0
    else if y < 0 then 0
    else
      var tileX := x / (tileWidth % 0x1_0000_0000);
      var tileY := y / (tileHeight % 0x1_0000_0000);
      GetTileType(levelBytes, levelWidth, levelHeight, tileX, tileY)
  }

  /** A level: its tile map and the size of one tile (the wall sprite's size). */
  datatype Level = Level(width: u32, height: u32, tiles: seq<bv8>, tileWidth: nat, tileHeight: nat)
  {
    predicate Valid()
    {
      TileMapFits(tiles, width, height) && tileWidth % 0x1_0000_0000 != 0 && tileHeight % 0x1_0000_0000 != 0
    }

    /** `Level::is_collided`: a point collides exactly when it lies inside the level on a wall
        tile; nothing outside the level ever collides. */
    function IsCollided(testX: i32, testY: i32): (c: bool)
      requires Valid()
      ensures c <==> WallUnder(tiles, width, height,
        tileWidth % 0x1_0000_0000, tileHeight % 0x1_0000_0000, testX, testY)
    {
      GetTileTypeLevelCoords(tiles, width, height, tileWidth, tileHeight, testX, testY) > 0
    }
  }

  // ---------------------------------------------------------------------------------------
  // Sprites and drawing

  /** An image: `width` by `height` ARGB pixels stored row-major. Positions are computed in
      `i32` arithmetic, so every index of the buffer fits an `i32`. */
  class Sprite {
    const width: nat
    const height: nat
    const argb: array<bv32>

    predicate Valid()
    {
      argb.Length == width * height && width * height < 0x8000_0000
    }

    constructor (width: nat, height: nat, argb: array<bv32>)
      requires argb.Length == width * height < 0x8000_0000
      ensures Valid() && this.width == width && this.height == height && this.argb == argb
    {
      this.width := width;
      this.height := height;
      this.argb := argb;
    }
  }

  /** `draw_pixel`: sets exactly the pixel at (x, y) when it lies on the sprite; a point off
      the sprite leaves every pixel unchanged. */
  method DrawPixel(sprite: Sprite, x: i32, y: i32, color: bv32)
    requires sprite.Valid()
    modifies sprite.argb
    ensures 0 <= x < sprite.width && 0 <= y < sprite.height ==>
      Grid.Idx(sprite.width, x, y) < sprite.argb.Length &&
      sprite.argb[..] == old(sprite.argb[..])[Grid.Idx(sprite.width, x, y) := color]
    ensures !(0 <= x < sprite.width && 0 <= y < sprite.height) ==>
      sprite.argb[..] == old(sprite.argb[..])
  {
    if x < 0 || y < 0 {
      return;
    }
    if x >= sprite.width || y >= sprite.height {
      return;
    }
    Grid.IdxBound(sprite.width, sprite.height, x, y);
    var destInd := y * sprite.width + x;
    sprite.argb[destInd] := color;
  }

  /** The alpha test of the blit: the top byte of an ARGB pixel is 0xff. */
  predicate AlphaIsFull(p: bv32)
  {
    (p & 0xff00_0000) >> 24 == 0xff
  }

  /** Reference for a partial blit: screen pixel i after the sprite pixels of rows before
      `rows`, and of the first `cols` columns of row `rows`, have been drawn with the sprite's
      top-left corner at (x0, y0). A covered screen pixel takes the sprite pixel when that is
      fully opaque and otherwise keeps its value. */
  function BlitPixel(screen: seq<bv32>, screenWidth: nat, sprite: seq<bv32>, spriteWidth: nat,
                     spriteHeight: nat, x0: int, y0: int, rows: int, cols: int, i: nat): bv32
    requires screenWidth > 0 && i < |screen| && |sprite| == spriteWidth * spriteHeight
  {
    var a, b := i % screenWidth - x0, i / screenWidth - y0;
    if 0 <= a < spriteWidth && 0 <= b < spriteHeight && (b < rows || (b == rows && a < cols)) then
      Grid.IdxBound(spriteWidth, spriteHeight, a, b);
      var p := sprite[Grid.Idx(spriteWidth, a, b)];
      if AlphaIsFull(p) then p else screen[i]
    else
      screen[i]
  }

  /** Reference for `draw_sprite`: the screen with the whole sprite drawn at (x0, y0). */
  function Blit(screen: seq<bv32>, screenWidth: nat, sprite: seq<bv32>, spriteWidth: nat,
                spriteHeight: nat, x0: int, y0: int): (r: seq<bv32>)
    requires screenWidth > 0 || screen == []
    requires |sprite| == spriteWidth * spriteHeight
    ensures |r| == |screen|
  {
    seq(|screen|, i requires 0 <= i < |screen| =>
      BlitPixel(screen, screenWidth, sprite, spriteWidth, spriteHeight, x0, y0, spriteHeight, 0, i))
  }

  // Steps of the blit loop, each relating two stages of the partial blit.

  /** A sprite row above the screen draws nothing. */
  lemma BlitSkipRow(screen: seq<bv32>, sw: nat, sprite: seq<bv32>, spw: nat, sph: nat,
                    x0: int, y0: int, row: int)
    requires (sw > 0 || screen == []) && |sprite| == spw * sph && y0 + row < 0
    ensures forall i :: 0 <= i < |screen| ==>
      BlitPixel(screen, sw, sprite, spw, sph, x0, y0, row, 0, i) ==
      BlitPixel(screen, sw, sprite, spw, sph, x0, y0, row + 1, 0, i)
  {
  }

  /** Once a sprite row falls below the screen, so do all later rows. */
  lemma BlitPastBottom(screen: seq<bv32>, sw: nat, sh: nat, sprite: seq<bv32>, spw: nat,
                       sph: nat, x0: int, y0: int, row: int)
    requires |screen| == sw * sh && |sprite| == spw * sph
    requires y0 + row >= sh && row <= sph
    ensures forall i :: 0 <= i < |screen| ==>
      BlitPixel(screen, sw, sprite, spw, sph, x0, y0, row, 0, i) ==
      BlitPixel(screen, sw, sprite, spw, sph, x0, y0, sph, 0, i)
  {
    forall i | 0 <= i < |screen|
      ensures BlitPixel(screen, sw, sprite, spw, sph, x0, y0, row, 0, i) ==
              BlitPixel(screen, sw, sprite, spw, sph, x0, y0, sph, 0, i)
    {
      Grid.CellOfIdx(sw, sh, i);
    }
  }

  /** A sprite column left of the screen draws nothing. */
  lemma BlitSkipColumn(screen: seq<bv32>, sw: nat, sprite: seq<bv32>, spw: nat, sph: nat,
                       x0: int, y0: int, row: int, col: int)
    requires (sw > 0 || screen == []) && |sprite| == spw * sph && x0 + col < 0
    ensures forall i :: 0 <= i < |screen| ==>
      BlitPixel(screen, sw, sprite, spw, sph, x0, y0, row, col, i) ==
      BlitPixel(screen, sw, sprite, spw, sph, x0, y0, row, col + 1, i)
  {
  }

  /** Once a column of a row passes the right edge, so does the rest of the row. */
  lemma BlitPastRight(screen: seq<bv32>, sw: nat, sprite: seq<bv32>, spw: nat, sph: nat,
                      x0: int, y0: int, row: int, col: int)
    requires (sw > 0 || screen == []) && |sprite| == spw * sph && x0 + col >= sw
    ensures forall i :: 0 <= i < |screen| ==>
      BlitPixel(screen, sw, sprite, spw, sph, x0, y0, row, col, i) ==
      BlitPixel(screen, sw, sprite, spw, sph, x0, y0, row + 1, 0, i)
  {
  }

  /** A row drawn to its last column is a finished row. */
  lemma BlitRowEnd(screen: seq<bv32>, sw: nat, sprite: seq<bv32>, spw: nat, sph: nat,
                   x0: int, y0: int, row: int)
    requires (sw > 0 || screen == []) && |sprite| == spw * sph
    ensures forall i :: 0 <= i < |screen| ==>
      BlitPixel(screen, sw, sprite, spw, sph, x0, y0, row, spw, i) ==
      BlitPixel(screen, sw, sprite, spw, sph, x0, y0, row + 1, 0, i)
  {
  }

  /** Drawing sprite pixel (col, row) at its on-screen position `dest` advances the blit by
      one pixel: `dest` takes its blitted value and every other pixel keeps its stage. */
  lemma BlitStep(screen: seq<bv32>, sw: nat, sh: nat, sprite: seq<bv32>, spw: nat, sph: nat,
                 x0: int, y0: int, row: nat, col: nat)
    requires |screen| == sw * sh && |sprite| == spw * sph
    requires row < sph && col < spw
    requires 0 <= x0 + col < sw && 0 <= y0 + row < sh
    ensures var dest := Grid.Idx(sw, x0 + col, y0 + row);
      && dest < |screen|
      && Grid.Idx(spw, col, row) < |sprite|
      && BlitPixel(screen, sw, sprite, spw, sph, x0, y0, row, col, dest) == screen[dest]
      && BlitPixel(screen, sw, sprite, spw, sph, x0, y0, row, col + 1, dest) ==
         (if AlphaIsFull(sprite[Grid.Idx(spw, col, row)]) then sprite[Grid.Idx(spw, col, row)]
          else screen[dest])
      && forall i :: 0 <= i < |screen| && i != dest ==>
         BlitPixel(screen, sw, sprite, spw, sph, x0, y0, row, col, i) ==
         BlitPixel(screen, sw, sprite, spw, sph, x0, y0, row, col + 1, i)
  {
    var dest := Grid.Idx(sw, x0 + col, y0 + row);
    Grid.IdxBound(sw, sh, x0 + col, y0 + row);
    Grid.IdxBound(spw, sph, col, row);
    Grid.IdxDivMod(sw, x0 + col, y0 + row);
    forall i | 0 <= i < |screen| && i != dest
      ensures BlitPixel(screen, sw, sprite, spw, sph, x0, y0, row, col, i) ==
              BlitPixel(screen, sw, sprite, spw, sph, x0, y0, row, col + 1, i)
    {
      Grid.CellOfIdx(sw, sh, i);
    }
  }

  /** `draw_sprite`: draws `sprite` with its top-left corner at (spriteX, spriteY), clipped to
      the screen; exactly the fully opaque sprite pixels that land on the screen are copied. */
  method DrawSprite(sprite: Sprite, spriteX: i32, spriteY: i32, screen: Sprite)
    requires sprite.Valid() && screen.Valid() && sprite.argb != screen.argb
    modifies screen.argb
    ensures screen.width > 0 || screen.argb.Length == 0
    ensures screen.argb[..] == Blit(old(screen.argb[..]), screen.width, sprite.argb[..],
                                    sprite.width, sprite.height, spriteX, spriteY)
  {
    ghost var before := screen.argb[..];
    assert screen.width == 0 ==> screen.argb.Length == 0;
    var sy := 0;
    while sy < sprite.height
      invariant 0 <= sy <= sprite.height
      invariant forall i :: 0 <= i < screen.argb.Length ==>
        screen.argb[i] == BlitPixel(before, screen.width, sprite.argb[..], sprite.width,
                                    sprite.height, spriteX, spriteY, sy, 0, i)
    {
      var y := spriteY + sy;
      if y < 0 {
        BlitSkipRow(before, screen.width, sprite.argb[..], sprite.width, sprite.height,
                    spriteX, spriteY, sy);
        sy := sy + 1;
        continue;
      }
      if y >= screen.height {
        BlitPastBottom(before, screen.width, screen.height, sprite.argb[..], sprite.width,
                       sprite.height, spriteX, spriteY, sy);
        break;
      }
      var sx := 0;
      while sx < sprite.width
        invariant 0 <= sx <= sprite.width
        invariant forall i :: 0 <= i < screen.argb.Length ==>
          screen.argb[i] == BlitPixel(before, screen.width, sprite.argb[..], sprite.width,
                                      sprite.height, spriteX, spriteY, sy, sx, i)
      {
        var x := spriteX + sx;
        if x < 0 {
          BlitSkipColumn(before, screen.width, sprite.argb[..], sprite.width, sprite.height,
                         spriteX, spriteY, sy, sx);
          sx := sx + 1;
          continue;
        }
        if x >= screen.width {
          BlitPastRight(before, screen.width, sprite.argb[..], sprite.width, sprite.height,
                        spriteX, spriteY, sy, sx);
          break;
        }
        BlitStep(before, screen.width, screen.height, sprite.argb[..], sprite.width,
                 sprite.height, spriteX, spriteY, sy, sx);
        var srcInd := sy * sprite.width + sx;
        var destInd := y * screen.width + x;
        var srcPixel := sprite.argb[srcInd];
        var srcAlpha := (srcPixel & 0xff00_0000) >> 24;
        if srcAlpha == 0xff {
          screen.argb[destInd] := srcPixel;
        }
        sx := sx + 1;
      }
      BlitRowEnd(before, screen.width, sprite.argb[..], sprite.width, sprite.height,
                 spriteX, spriteY, sy);
      sy := sy + 1;
    }
  }

  /** Drawing the same sprite at the same place twice leaves the screen as drawing it once. */
  lemma BlitIdempotent(screen: seq<bv32>, sw: nat, sprite: seq<bv32>, spw: nat, sph: nat,
                       x0: int, y0: int)
    requires sw > 0 || screen == []
    requires |sprite| == spw * sph
    ensures var once := Blit(screen, sw, sprite, spw, sph, x0, y0);
      Blit(once, sw, sprite, spw, sph, x0, y0) == once
  {
  }

  /** A sprite without a single fully opaque pixel changes nothing. */
  lemma BlitTransparent(screen: seq<bv32>, sw: nat, sprite: seq<bv32>, spw: nat, sph: nat,
                        x0: int, y0: int)
    requires sw > 0 || screen == []
    requires |sprite| == spw * sph
    requires forall k :: 0 <= k < |sprite| ==> !AlphaIsFull(sprite[k])
    ensures Blit(screen, sw, sprite, spw, sph, x0, y0) == screen
  {
    var r := Blit(screen, sw, sprite, spw, sph, x0, y0);
    forall i | 0 <= i < |screen|
      ensures r[i] == screen[i]
    {
      var a, b := i % sw - x0, i / sw - y0;
      if 0 <= a < spw && 0 <= b < sph {
        Grid.IdxBound(spw, sph, a, b);
      }
    }
  }

  /** A sprite placed wholly off the screen changes nothing. */
  lemma BlitOffScreen(screen: seq<bv32>, sw: nat, sh: nat, sprite: seq<bv32>, spw: nat,
                      sph: nat, x0: int, y0: int)
    requires |screen| == sw * sh && |sprite| == spw * sph
    requires x0 >= sw || x0 + spw <= 0 || y0 >= sh || y0 + sph <= 0
    ensures Blit(screen, sw, sprite, spw, sph, x0, y0) == screen
  {
    var r := Blit(screen, sw, sprite, spw, sph, x0, y0);
    forall i | 0 <= i < |screen|
      ensures r[i] == screen[i]
    {
      Grid.CellOfIdx(sw, sh, i);
    }
  }

  /** Every fully opaque sprite pixel that lands on the screen shows at its screen position,
      and every screen pixel outside the sprite's rectangle keeps its value. */
  lemma BlitShowsOpaquePixels(screen: seq<bv32>, sw: nat, sh: nat, sprite: seq<bv32>,
                              spw: nat, sph: nat, x0: int, y0: int)
    requires |screen| == sw * sh && |sprite| == spw * sph
    ensures var r := Blit(screen, sw, sprite, spw, sph, x0, y0);
      forall col: nat, row: nat {:trigger Grid.Cell(sprite, spw, sph, col, row)} ::
        col < spw && row < sph && 0 <= x0 + col < sw && 0 <= y0 + row < sh &&
        AlphaIsFull(Grid.Cell(sprite, spw, sph, col, row)) ==>
          Grid.Cell(r, sw, sh, x0 + col, y0 + row) == Grid.Cell(sprite, spw, sph, col, row)
    ensures var r := Blit(screen, sw, sprite, spw, sph, x0, y0);
      forall x: nat, y: nat {:trigger Grid.Cell(r, sw, sh, x, y)} ::
        x < sw && y < sh && !(x0 <= x < x0 + spw && y0 <= y < y0 + sph) ==>
          Grid.Cell(r, sw, sh, x, y) == Grid.Cell(screen, sw, sh, x, y)
  {
    var r := Blit(screen, sw, sprite, spw, sph, x0, y0);
    forall col: nat, row: nat | col < spw && row < sph && 0 <= x0 + col < sw && 0 <= y0 + row < sh
      ensures Grid.Cell(r, sw, sh, x0 + col, y0 + row) == Grid.Cell(sprite, spw, sph, col, row)
              || !AlphaIsFull(Grid.Cell(sprite, spw, sph, col, row))
    {
      Grid.IdxBound(sw, sh, x0 + col, y0 + row);
      Grid.IdxDivMod(sw, x0 + col, y0 + row);
    }
    forall x: nat, y: nat | x < sw && y < sh && !(x0 <= x < x0 + spw && y0 <= y < y0 + sph)
      ensures Grid.Cell(r, sw, sh, x, y) == Grid.Cell(screen, sw, sh, x, y)
    {
      Grid.IdxBound(sw, sh, x, y);
      Grid.IdxDivMod(sw, x, y);
    }
  }

  // ---------------------------------------------------------------------------------------
  // Image decoding

  /** The red, green, blue and alpha channels of an ARGB pixel. */
  function Channels(p: bv32): (rgba: (bv8, bv8, bv8, bv8))
  {
    (((p >> 16) & 0xff) as bv8, ((p >> 8) & 0xff) as bv8, (p & 0xff) as bv8, ((p >> 24) & 0xff) as bv8)
  }

  /** Packing four channel bytes into ARGB keeps each channel in its own byte. */
  lemma PackedChannels(r: bv8, g: bv8, b: bv8, a: bv8)
    ensures Channels(((a as bv32) << 24) | ((r as bv32) << 16) | ((g as bv32) << 8) | (b as bv32))
            == (r, g, b, a)
  {
  }

  /** The RGBA to ARGB conversion of a decoded image: each group of four bytes (red, green,
      blue, alpha) becomes one pixel carrying the same four channels. */
  method PackArgb(rgba: seq<bv8>) returns (argb: seq<bv32>)
    requires |rgba| % 4 == 0
    ensures |argb| == |rgba| / 4
    ensures forall k :: 0 <= k < |argb| ==>
      Channels(argb[k]) == (rgba[4 * k], rgba[4 * k + 1], rgba[4 * k + 2], rgba[4 * k + 3])
  {
    argb := [];
    var i := 0;
    while i < |rgba|
      invariant 0 <= i <= |rgba| && i % 4 == 0 && |argb| == i / 4
      invariant forall k :: 0 <= k < |argb| ==>
        Channels(argb[k]) == (rgba[4 * k], rgba[4 * k + 1], rgba[4 * k + 2], rgba[4 * k + 3])
    {
      var r := rgba[i] as bv32;
      var g := rgba[i + 1] as bv32;
      var b := rgba[i + 2] as bv32;
      var a := rgba[i + 3] as bv32;
      PackedChannels(rgba[i], rgba[i + 1], rgba[i + 2], rgba[i + 3]);
      argb := argb + [(a << 24) | (r << 16) | (g << 8) | b];
      i := i + 4;
    }
  }

  // ---------------------------------------------------------------------------------------
  // Hit points and invincibility frames

  const START_HIT_POINTS := 16
  /** Frames of invincibility a new character starts with. */
  const START_INVINCIBLE := 120
  /** Frames of invincibility after taking damage. */
  const INVINCIBLE_FRAMES := 60

  /** The integer health state of a character. */
  datatype Vitality = Vitality(hitPoints: int, invincibleCounter: nat)

  /** Taking `amount` damage: only a character that is not invincible is hurt, and it then
      becomes invincible. */
  function Hit(v: Vitality, amount: int): Vitality
  {
    if v.invincibleCounter == 0 then Vitality(v.hitPoints - amount, INVINCIBLE_FRAMES) else v
  }

  /** The end-of-frame countdown of the invincibility counter, stopping at 0. */
  function Tick(v: Vitality): Vitality
  {
    if v.invincibleCounter > 0 then v.(invincibleCounter := v.invincibleCounter - 1) else v
  }

  /** One frame: touching something damaging deals 1 damage, then the counter counts down. */
  function Frame(v: Vitality, touched: bool): Vitality
  {
    Tick(if touched then Hit(v, 1) else v)
  }

  /** The health state after a sequence of frames, `touches[k]` telling whether frame k
      touched something damaging. */
  function Run(v: Vitality, touches: seq<bool>): Vitality
    decreases |touches|
  {
    if touches == [] then v else Run(Frame(v, touches[0]), touches[1..])
  }

  /** A second hit while the first one's invincibility holds does nothing. */
  lemma HitAbsorbs(v: Vitality, amount: int, amount': int)
    ensures Hit(Hit(v, amount), amount') == Hit(v, amount)
  {
  }

  /** Hit points never rise, and fall only by whole hits of 1. */
  lemma {:induction false} RunNeverHeals(v: Vitality, touches: seq<bool>)
    ensures v.hitPoints - |touches| <= Run(v, touches).hitPoints <= v.hitPoints
    decreases |touches|
  {
    if touches != [] {
      RunNeverHeals(Frame(v, touches[0]), touches[1..]);
    }
  }

  /** While the counter lasts, no frame costs hit points, however much is touched. */
  lemma {:induction false} InvincibleWhileCounting(v: Vitality, touches: seq<bool>)
    requires v.invincibleCounter >= |touches|
    ensures Run(v, touches).hitPoints == v.hitPoints
    ensures Run(v, touches).invincibleCounter == v.invincibleCounter - |touches|
    decreases |touches|
  {
    if touches != [] {
      InvincibleWhileCounting(Frame(v, touches[0]), touches[1..]);
    }
  }

  /** Any window of at most 60 frames costs at most 1 hit point. */
  lemma {:induction false} OneHitPerWindow(v: Vitality, touches: seq<bool>)
    requires |touches| <= INVINCIBLE_FRAMES
    ensures Run(v, touches).hitPoints >= v.hitPoints - 1
    decreases |touches|
  {
    if touches != [] {
      var next := Frame(v, touches[0]);
      if next.hitPoints < v.hitPoints {
        InvincibleWhileCounting(next, touches[1..]);
      } else {
        OneHitPerWindow(next, touches[1..]);
      }
    }
  }

  /** A new character cannot be hurt during its first 120 frames. */
  lemma SpawnProtection(touches: seq<bool>)
    requires |touches| <= START_INVINCIBLE
    ensures Run(Vitality(START_HIT_POINTS, START_INVINCIBLE), touches).hitPoints == START_HIT_POINTS
  {
    InvincibleWhileCounting(Vitality(START_HIT_POINTS, START_INVINCIBLE), touches);
  }

  /** An axis-aligned damaging rectangle: top-left corner and size, in level pixels. */
  datatype Rect = Rect(x0: int, y0: int, width: int, height: int)
  {
    predicate Contains(x: int, y: int)
    {
      x0 <= x < x0 + width && y0 <= y < y0 + height
    }
  }

  /** Some test point (testX, y + offset) lies in some damaging rectangle. */
  predicate Touching(rects: seq<Rect>, testX: int, y: int, offsets: seq<int>)
  {
    exists r, k :: 0 <= r < |rects| && 0 <= k < |offsets| && rects[r].Contains(testX, y + offsets[k])
  }

  /** The heights, relative to the top of a sprite `spriteHeight` pixels tall, at which the
      character tests for contact: 1/5, 2/5, 3/5 and 4/5 of the way down, less one. */
  method TestYOffsets(spriteHeight: nat) returns (offsets: seq<int>)
    requires spriteHeight < 0x8000_0000
    ensures |offsets| == 4
    ensures forall k :: 0 <= k < 4 ==> offsets[k] == (k + 1) * spriteHeight / 5 - 1
    ensures forall k :: 0 <= k < 4 ==> -1 <= offsets[k] < spriteHeight
    ensures forall k :: 0 < k < 4 ==> offsets[k - 1] <= offsets[k]
  {
    offsets := [];
    for i := 0 to 4
      invariant |offsets| == i
      invariant forall k :: 0 <= k < i ==> offsets[k] == (k + 1) * spriteHeight / 5 - 1
    {
      offsets := offsets + [(i + 1) * spriteHeight / 5 - 1];
    }
  }

  /** The character's integer state: hit points, invincibility counter and whether it stands
      on the ground. */
  class Character {
    var hitPoints: int
    var invincibleCounter: nat
    var onGround: bool

    /** `Character::new`: full health, invincible for the first frames, in the air. */
    constructor ()
      ensures Vital() == Vitality(START_HIT_POINTS, START_INVINCIBLE) && !onGround
    {
      hitPoints := START_HIT_POINTS;
      invincibleCounter := START_INVINCIBLE;
      onGround := false;
    }

    function Vital(): Vitality
      reads this
    {
      Vitality(hitPoints, invincibleCounter)
    }

    /** `Character::damage`: a character that is not invincible loses `amount` hit points,
        becomes invincible for 60 frames and is knocked into the air; an invincible one is
        untouched. */
    method Damage(amount: int)
      modifies this
      ensures Vital() == Hit(old(Vital()), amount)
      ensures onGround == (old(onGround) && old(invincibleCounter) != 0)
    {
      if invincibleCounter == 0 {
        hitPoints := hitPoints - amount;
        onGround := false;
        invincibleCounter := INVINCIBLE_FRAMES;
      }
    }

    /** The damage pass of `Character::update`: every test point inside a damaging rectangle
        calls for 1 damage, so a frame with any contact costs exactly one hit (if the
        character is not invincible) and a frame without contact costs nothing. */
    method DamageTouching(rects: seq<Rect>, testX: int, y: int, offsets: seq<int>)
      modifies this
      ensures Vital() == if Touching(rects, testX, y, offsets) then Hit(old(Vital()), 1)
                         else old(Vital())
      ensures onGround == (old(onGround) && !(Touching(rects, testX, y, offsets) &&
                                              old(invincibleCounter) == 0))
    {
      ghost var touched := false;
      for r := 0 to |rects|
        invariant touched <==> exists r', k :: 0 <= r' < r && 0 <= k < |offsets| &&
                                               rects[r'].Contains(testX, y + offsets[k])
        invariant Vital() == if touched then Hit(old(Vital()), 1) else old(Vital())
        invariant onGround == (old(onGround) && !(touched && old(invincibleCounter) == 0))
      {
        var x1 := rects[r].x0 + rects[r].width;
        var y1 := rects[r].y0 + rects[r].height;
        for k := 0 to |offsets|
          invariant touched <==> (exists r', k' :: 0 <= r' < r && 0 <= k' < |offsets| &&
                                                  rects[r'].Contains(testX, y + offsets[k'])) ||
                                 (exists k' :: 0 <= k' < k && rects[r].Contains(testX, y + offsets[k']))
          invariant Vital() == if touched then Hit(old(Vital()), 1) else old(Vital())
          invariant onGround == (old(onGround) && !(touched && old(invincibleCounter) == 0))
        {
          var testY := y + offsets[k];
          if testX >= rects[r].x0 && testX < x1 && testY >= rects[r].y0 && testY < y1 {
            Damage(1);
            touched := true;
          }
        }
      }
    }

    /** The end of `Character::update`: a positive counter counts down by one. */
    method CountDown()
      modifies this
      ensures Vital() == Tick(old(Vital())) && onGround == old(onGround)
    {
      if invincibleCounter > 0 {
        invincibleCounter := invincibleCounter - 1;
      }
    }

    /** The integer health part of one `Character::update`: the damage pass, then the
        countdown; a hit that lands also takes the character off the ground. */
    method UpdateVitality(rects: seq<Rect>, testX: int, y: int, spriteHeight: nat) returns (offsets: seq<int>)
      requires spriteHeight < 0x8000_0000
      modifies this
      ensures |offsets| == 4 && forall k :: 0 <= k < 4 ==> offsets[k] == (k + 1) * spriteHeight / 5 - 1
      ensures Vital() == Frame(old(Vital()), Touching(rects, testX, y, offsets))
      ensures onGround == (old(onGround) && !(Touching(rects, testX, y, offsets) &&
                                              old(invincibleCounter) == 0))
    {
      offsets := TestYOffsets(spriteHeight);
      DamageTouching(rects, testX, y, offsets);
      CountDown();
    }
  }
}
