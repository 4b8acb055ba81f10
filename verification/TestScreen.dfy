/** The boot loader's tiled test screen: `draw_test_screen` of the boot loader's graphics.c. */
module TestScreen {
  import opened Bits
  import opened Framebuffer

  const COLUMNS: nat := 4
  const ROWS: nat := 3
  const TILES: nat := 12
  const PRIMARY: u32 := 0x00FF4000
  const SECONDARY: u32 := 0x00FF80BF

  function TileColour(p: nat): u32 {
    if (p / COLUMNS % 2 + p % COLUMNS) % 2 != 0 then SECONDARY else PRIMARY
  }

  /** The position of tile `k` of a line, passed as a 16-bit number. */
  function Coordinate(size: nat, k: nat): u16 { size * k % 0x1_0000 }

  /** Tile `p` as it is drawn. */
  function TileRect(p: nat, tw: nat, th: nat): Rect {
    Rect(Coordinate(tw, p % COLUMNS), Coordinate(th, p / COLUMNS), tw, th)
  }

  /** The image after the first `n` tiles. */
  function Tiled(img: seq<u32>, pitch: pos, tw: nat, th: nat, n: nat): (r: seq<u32>)
    ensures |r| == |img|
  {
    if n == 0 then img
    else Painted(Tiled(img, pitch, tw, th, n - 1), pitch, TileRect(n - 1, tw, th), Const(TileColour(n - 1)))
  }

  /** The image the method paints. */
  function Screen(img: seq<u32>, pitch: pos, horizontal: nat, vertical: nat): (r: seq<u32>)
    ensures |r| == |img|
  {
    Tiled(img, pitch, horizontal / COLUMNS % 0x1_0000, vertical / ROWS % 0x1_0000, TILES)
  }

  lemma TileFits(p: nat, tw: nat, th: nat, horizontal: nat, vertical: nat, pitch: pos, size: nat)
    requires p < TILES && COLUMNS * tw <= horizontal <= pitch && ROWS * th <= vertical
    requires vertical * pitch <= size <= 0x1_0000_0000
    ensures Fits(TileRect(p, tw, th), pitch, size)
  {
    var r := TileRect(p, tw, th);
    Truncated(tw, p % COLUMNS, COLUMNS);
    Truncated(th, p / COLUMNS, ROWS);
    if th > 0 { InScanlines(r.x + r.w, r.y + r.h - 1, pitch, vertical, size); }
  }

  lemma InScanlines(x: nat, y: nat, pitch: pos, vertical: nat, size: nat)
    requires x <= pitch && y < vertical && vertical * pitch <= size
    ensures At(x, y, pitch) <= size
  {
    MulLess(y, vertical, pitch);
  }

  lemma Truncated(size: nat, k: nat, n: nat)
    requires k < n
    ensures size * k % 0x1_0000 + size <= n * size
  {
    assert size * k + size <= n * size by { MulLess(k, n, size); }
  }

  method DrawTestScreen(fb: array<u32>, horizontal: u32, vertical: u32, pitch: u32)
    requires pitch > 0 && horizontal <= pitch && vertical * pitch <= fb.Length <= 0x1_0000_0000
    modifies fb
    ensures fb[..] == Screen(old(fb[..]), pitch, horizontal, vertical)
  {
    hide Painted, Fits, Coordinate, Const;
    var tileWidth, tileHeight := horizontal / COLUMNS % 0x1_0000, vertical / ROWS % 0x1_0000;
    var p := 0;
    while p < TILES
      invariant p <= TILES
      invariant fb[..] == Tiled(old(fb[..]), pitch, tileWidth, tileHeight, p)
    {
      var x, y := p % COLUMNS, p / COLUMNS;
      var color := PRIMARY;
      if (y % 2 + x) % 2 != 0 {
        color := SECONDARY;
      }
      TileFits(p, tileWidth, tileHeight, horizontal, vertical, pitch, fb.Length);
      assert color == TileColour(p);
      DrawRect(fb, pitch, Coordinate(tileWidth, x), Coordinate(tileHeight, y), tileWidth, tileHeight, color);
      p := p + 1;
    }
  }

  // ------------------------------------------------------------------ the picture

  /** The number of the tile that position `c` lies in, on a line of tiles of width `w`. */
  function TileNo(c: nat, w: pos): nat { c / w }

  /** Position `c` on a line of tiles of width `w` lies in tile `c / w`, and in no other one. */
  lemma InTile(c: nat, w: nat, k: nat)
    requires w > 0
    ensures w * k <= c < w * k + w <==> TileNo(c, w) == k
  {
    if w * k <= c < w * k + w {
      DivModUnique(k, c - w * k, w);
      assert k * w + (c - w * k) == c;
    }
  }

  /** Without truncation, a pixel lies in tile `p` exactly if `p` is its tile number. */
  lemma TileOf(p: nat, tw: nat, th: nat, px: nat, py: nat)
    requires p < TILES && tw > 0 && th > 0 && tw * (COLUMNS - 1) < 0x1_0000 && th * (ROWS - 1) < 0x1_0000
    ensures TileRect(p, tw, th).Has(px, py) <==> TileNo(px, tw) == p % COLUMNS && TileNo(py, th) == p / COLUMNS
  {
    assert tw * (p % COLUMNS) <= tw * 3 && th * (p / COLUMNS) <= th * 2;
    InTile(px, tw, p % COLUMNS);
    InTile(py, th, p / COLUMNS);
  }

  /** The colour a pixel of the covered area should have. */
  function Checker(px: nat, py: nat, tw: pos, th: pos): u32 {
    if (TileNo(px, tw) + TileNo(py, th)) % 2 == 0 then PRIMARY else SECONDARY
  }

  /** The pixel belongs to one of the first `n` tiles. */
  predicate Covered(px: nat, py: nat, tw: nat, th: nat, n: nat) {
    tw > 0 && th > 0 && TileNo(px, tw) < COLUMNS && TileNo(py, th) * COLUMNS + TileNo(px, tw) < n
  }

  /** One more tile covers its own pixels, in the right colour. */
  lemma TileStep(n: nat, tw: nat, th: nat, px: nat, py: nat)
    requires 0 < n <= TILES && tw * (COLUMNS - 1) < 0x1_0000 && th * (ROWS - 1) < 0x1_0000
    ensures Covered(px, py, tw, th, n) <==> Covered(px, py, tw, th, n - 1) || TileRect(n - 1, tw, th).Has(px, py)
    ensures TileRect(n - 1, tw, th).Has(px, py) ==> tw > 0 && th > 0 && TileColour(n - 1) == Checker(px, py, tw, th)
  {
    if tw > 0 && th > 0 {
      hide TileRect, TileColour, TileNo;
      TileOf(n - 1, tw, th, px, py);
      TileIndex(n, TileNo(px, tw), TileNo(py, th));
    }
  }

  /** Tile (x, y) is tile `n - 1` exactly if it is the one among the first `n` that is not among the first `n - 1`. */
  lemma TileIndex(n: nat, x: nat, y: nat)
    requires 0 < n <= TILES
    ensures x < COLUMNS && y * COLUMNS + x < n <==>
      (x < COLUMNS && y * COLUMNS + x < n - 1) || (x == (n - 1) % COLUMNS && y == (n - 1) / COLUMNS)
    ensures x == (n - 1) % COLUMNS && y == (n - 1) / COLUMNS ==>
      TileColour(n - 1) == if (x + y) % 2 == 0 then PRIMARY else SECONDARY
  {
  }

  lemma {:induction false} TiledAt(img: seq<u32>, pitch: pos, tw: nat, th: nat, n: nat, px: nat, py: nat)
    requires n <= TILES && tw * (COLUMNS - 1) < 0x1_0000 && th * (ROWS - 1) < 0x1_0000
    requires px < pitch && At(px, py, pitch) < |img|
    ensures Tiled(img, pitch, tw, th, n)[At(px, py, pitch)]
      == if Covered(px, py, tw, th, n) then Checker(px, py, tw, th) else img[At(px, py, pitch)]
  {
    hide Painted, At, Covered, TileRect, TileColour, Checker;
    if n > 0 {
      TileStep(n, tw, th, px, py);
      TiledAt(img, pitch, tw, th, n - 1, px, py);
      PaintedAt(Tiled(img, pitch, tw, th, n - 1), pitch, TileRect(n - 1, tw, th), Const(TileColour(n - 1)), px, py);
    } else {
      NothingCovered(px, py, tw, th);
    }
  }

  lemma NothingCovered(px: nat, py: nat, tw: nat, th: nat)
    ensures !Covered(px, py, tw, th, 0)
  {
  }

  /** The tile sizes survive their 16-bit variables, and so do all tile coordinates. */
  predicate SixteenBits(tw: nat, th: nat) {
    tw * (COLUMNS - 1) < 0x1_0000 && th * (ROWS - 1) < 0x1_0000
  }

  /** Pixel (px, py) lies in the grid of whole tiles. */
  predicate InGrid(px: nat, py: nat, tw: nat, th: nat) {
    px < COLUMNS * tw && py < ROWS * th
  }

  lemma GridCovered(px: nat, py: nat, tw: nat, th: nat)
    ensures InGrid(px, py, tw, th) <==> Covered(px, py, tw, th, TILES)
  {
  }

  lemma GridPixel(img: seq<u32>, pitch: pos, horizontal: nat, vertical: nat, px: nat, py: nat)
    requires SixteenBits(horizontal / COLUMNS, vertical / ROWS)
    requires px < pitch && At(px, py, pitch) < |img|
    ensures var tw, th := horizontal / COLUMNS, vertical / ROWS;
      Screen(img, pitch, horizontal, vertical)[At(px, py, pitch)]
      == if InGrid(px, py, tw, th) then Checker(px, py, tw, th) else img[At(px, py, pitch)]
  {
    hide At, Tiled, Covered, Checker;
    var tw, th := horizontal / COLUMNS, vertical / ROWS;
    GridCovered(px, py, tw, th);
    TiledAt(img, pitch, tw, th, TILES, px, py);
  }

  /**
   The test screen is a checkerboard of 4 x 3 whole tiles: every pixel of the grid has the colour of its
   tile's parity, orange at the top left, and every other cell (the strip right of and below the grid,
   the padding of the scanlines) is untouched.
   */
  lemma Checkerboard(img: seq<u32>, pitch: pos, horizontal: nat, vertical: nat, px: nat, py: nat)
    requires 3 * (horizontal / 4) < 0x1_0000 && 2 * (vertical / 3) < 0x1_0000
    requires px < pitch && px + py * pitch < |img|
    ensures var tw, th := horizontal / 4, vertical / 3;
      Screen(img, pitch, horizontal, vertical)[px + py * pitch]
      == if px < 4 * tw && py < 3 * th then (if (px / tw + py / th) % 2 == 0 then 0x00FF4000 else 0x00FF80BF)
         else img[px + py * pitch]
  {
    hide Screen;
    GridPixel(img, pitch, horizontal, vertical, px, py);
  }

  /** Neighbouring tiles differ. */
  lemma Neighbours(px: nat, py: nat, tw: pos, th: pos)
    ensures Checker(px + tw, py, tw, th) != Checker(px, py, tw, th)
    ensures Checker(px, py + th, tw, th) != Checker(px, py, tw, th)
  {
    hide TileNo;
    NextTile(px, tw);
    NextTile(py, th);
  }

  lemma NextTile(c: nat, w: pos)
    ensures TileNo(c + w, w) == TileNo(c, w) + 1
  {
    var q := TileNo(c, w);
    assert c + w == (q + 1) * w + c % w;
    DivModUnique(q + 1, c % w, w);
  }

  /** The painted image is right on the whole grid. */
  ghost predicate Right(img: seq<u32>, pitch: pos, horizontal: nat, vertical: nat) {
    var tw, th := horizontal / COLUMNS, vertical / ROWS;
    forall px: nat, py: nat :: InGrid(px, py, tw, th) && px < pitch && At(px, py, pitch) < |img| ==>
      Screen(img, pitch, horizontal, vertical)[At(px, py, pitch)] == Checker(px, py, tw, th)
  }

  /** A pixel that no tile has keeps its colour. */
  lemma {:induction false} Unpainted(img: seq<u32>, pitch: pos, tw: nat, th: nat, n: nat, px: nat, py: nat)
    requires n <= TILES && forall p :: 0 <= p < n ==> !TileRect(p, tw, th).Has(px, py)
    requires px < pitch && At(px, py, pitch) < |img|
    ensures Tiled(img, pitch, tw, th, n)[At(px, py, pitch)] == img[At(px, py, pitch)]
  {
    hide Painted, At, TileRect;
    if n == 0 {
    } else {
      Unpainted(img, pitch, tw, th, n - 1, px, py);
      PaintedAt(Tiled(img, pitch, tw, th, n - 1), pitch, TileRect(n - 1, tw, th), Const(TileColour(n - 1)), px, py);
    }
  }

  /** The last of the first `n` tiles that has a pixel gives it its colour. */
  lemma {:induction false} LastTile(img: seq<u32>, pitch: pos, tw: nat, th: nat, n: nat, p: nat, px: nat, py: nat)
    requires p < n <= TILES && TileRect(p, tw, th).Has(px, py)
    requires forall q :: p < q < n ==> !TileRect(q, tw, th).Has(px, py)
    requires px < pitch && At(px, py, pitch) < |img|
    ensures Tiled(img, pitch, tw, th, n)[At(px, py, pitch)] == TileColour(p)
  {
    hide Painted, At, TileRect, TileColour;
    PaintedAt(Tiled(img, pitch, tw, th, n - 1), pitch, TileRect(n - 1, tw, th), Const(TileColour(n - 1)), px, py);
    if p < n - 1 { LastTile(img, pitch, tw, th, n - 1, p, px, py); }
  }

  /** The pixel lies in tile `p`, of a sixteen-bit size and at sixteen-bit coordinates. */
  predicate InTruncated(p: nat, horizontal: nat, vertical: nat, px: nat, py: nat) {
    var tw, th := horizontal / 4 % 0x1_0000, vertical / 3 % 0x1_0000;
    var x, y := tw * (p % 4) % 0x1_0000, th * (p / 4) % 0x1_0000;
    x <= px < x + tw && y <= py < y + th
  }

  lemma TruncatedIs(q: nat, horizontal: nat, vertical: nat, px: nat, py: nat)
    ensures var tw, th := horizontal / 4 % 0x1_0000, vertical / 3 % 0x1_0000;
      InTruncated(q, horizontal, vertical, px, py) <==> TileRect(q, tw, th).Has(px, py)
  {
  }

  lemma ScreenIs(img: seq<u32>, pitch: pos, horizontal: nat, vertical: nat)
    ensures Screen(img, pitch, horizontal, vertical)
      == Tiled(img, pitch, horizontal / 4 % 0x1_0000, vertical / 3 % 0x1_0000, 12)
  {
  }

  /**
   The image for every resolution, truncation included: a pixel has the colour of the last of the twelve
   tiles that it lies in ...
   */
  lemma LastTileWins(img: seq<u32>, pitch: pos, horizontal: nat, vertical: nat, px: nat, py: nat, p: nat)
    requires px < pitch && px + py * pitch < |img|
    requires p < 12 && InTruncated(p, horizontal, vertical, px, py)
    requires forall q :: p < q < 12 ==> !InTruncated(q, horizontal, vertical, px, py)
    ensures Screen(img, pitch, horizontal, vertical)[px + py * pitch]
      == if (p / 4 + p % 4) % 2 == 0 then 0x00FF4000 else 0x00FF80BF
  {
    hide InTruncated, TileRect, Tiled, Screen;
    CellOf(px, py, pitch);
    ScreenIs(img, pitch, horizontal, vertical);
    forall q | p <= q < 12 { TruncatedIs(q, horizontal, vertical, px, py); }
    LastTile(img, pitch, horizontal / 4 % 0x1_0000, vertical / 3 % 0x1_0000, 12, p, px, py);
  }

  /** ... and is untouched if it lies in none. */
  lemma NoTileNoChange(img: seq<u32>, pitch: pos, horizontal: nat, vertical: nat, px: nat, py: nat)
    requires px < pitch && px + py * pitch < |img|
    requires forall q :: 0 <= q < 12 ==> !InTruncated(q, horizontal, vertical, px, py)
    ensures Screen(img, pitch, horizontal, vertical)[px + py * pitch] == img[px + py * pitch]
  {
    hide InTruncated, TileRect, Tiled, Screen;
    CellOf(px, py, pitch);
    ScreenIs(img, pitch, horizontal, vertical);
    forall q | 0 <= q < 12 { TruncatedIs(q, horizontal, vertical, px, py); }
    Unpainted(img, pitch, horizontal / 4 % 0x1_0000, vertical / 3 % 0x1_0000, 12, px, py);
  }

  /** Sixteen bits for the tile coordinates are exactly what the checkerboard needs. */
  lemma CheckerboardExactly(pitch: pos, horizontal: nat, vertical: nat, size: nat)
    requires horizontal <= pitch && vertical * pitch <= size
    ensures (forall img: seq<u32> :: |img| == size ==> Right(img, pitch, horizontal, vertical)) <==>
      (horizontal >= 4 && vertical >= 3 ==> 3 * (horizontal / 4) < 0x1_0000 && 2 * (vertical / 3) < 0x1_0000)
  {
    var tw, th := horizontal / COLUMNS, vertical / ROWS;
    if tw > 0 && th > 0 && !SixteenBits(tw, th) {
      SomethingWrong(pitch, horizontal, vertical, size);
    } else {
      forall img: seq<u32> | |img| == size
        ensures Right(img, pitch, horizontal, vertical)
      {
        AllRight(img, pitch, horizontal, vertical);
      }
    }
  }

  lemma AllRight(img: seq<u32>, pitch: pos, horizontal: nat, vertical: nat)
    requires var tw, th := horizontal / COLUMNS, vertical / ROWS; tw == 0 || th == 0 || SixteenBits(tw, th)
    ensures Right(img, pitch, horizontal, vertical)
  {
    hide At, Screen, Checker;
    var tw, th := horizontal / COLUMNS, vertical / ROWS;
    forall px: nat, py: nat | InGrid(px, py, tw, th) && px < pitch && At(px, py, pitch) < |img|
      ensures Screen(img, pitch, horizontal, vertical)[At(px, py, pitch)] == Checker(px, py, tw, th)
    {
      GridPixel(img, pitch, horizontal, vertical, px, py);
    }
  }

  lemma SomethingWrong(pitch: pos, horizontal: nat, vertical: nat, size: nat)
    requires horizontal <= pitch && vertical * pitch <= size
    requires var tw, th := horizontal / COLUMNS, vertical / ROWS; tw > 0 && th > 0 && !SixteenBits(tw, th)
    ensures exists img: seq<u32> :: |img| == size && !Right(img, pitch, horizontal, vertical)
  {
    hide At, Tiled, TileRect, Right, InGrid;
    var tw, th := horizontal / COLUMNS, vertical / ROWS;
    var img: seq<u32> := seq(size, _ => 0);
    var wide := tw * (COLUMNS - 1) >= 0x1_0000;
    var px, py := if wide then COLUMNS * tw - 1 else 0, if wide then 0 else ROWS * th - 1;
    LastUnpainted(tw, th, wide);
    PixelInScanlines(px, py, pitch, vertical, size);
    Unpainted(img, pitch, tw % 0x1_0000, th % 0x1_0000, TILES, px, py);
    NotRight(img, pitch, horizontal, vertical, px, py);
  }

  lemma NotRight(img: seq<u32>, pitch: pos, horizontal: nat, vertical: nat, px: nat, py: nat)
    requires px < COLUMNS * (horizontal / COLUMNS) && py < ROWS * (vertical / ROWS)
    requires px < pitch && At(px, py, pitch) < |img|
    ensures Screen(img, pitch, horizontal, vertical)[At(px, py, pitch)] == 0 ==>
      !Right(img, pitch, horizontal, vertical)
  {
    hide At, Screen, TileNo;
    assert InGrid(px, py, horizontal / COLUMNS, vertical / ROWS);
  }

  lemma PixelInScanlines(px: nat, py: nat, pitch: pos, vertical: nat, size: nat)
    requires px < pitch && py < vertical && vertical * pitch <= size
    ensures At(px, py, pitch) < size
  {
    MulLess(py, vertical, pitch);
  }

  lemma LastUnpainted(tw: nat, th: nat, wide: bool)
    requires tw > 0 && th > 0
    requires if wide then tw * (COLUMNS - 1) >= 0x1_0000 else th * (ROWS - 1) >= 0x1_0000
    ensures var px, py := if wide then COLUMNS * tw - 1 else 0, if wide then 0 else ROWS * th - 1;
      forall p :: 0 <= p < TILES ==> !TileRect(p, tw % 0x1_0000, th % 0x1_0000).Has(px, py)
  {
  }
}
