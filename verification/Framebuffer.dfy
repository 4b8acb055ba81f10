/** Pixels in a linear framebuffer: `draw_rect`, `draw_pixel` and colour packing of both programs. */
module Framebuffer {
  import opened Bits

  type u16 = x: nat | x < 0x1_0000
  type u32 = x: nat | x < 0x1_0000_0000

  datatype Rect = Rect(x: nat, y: nat, w: nat, h: nat) {
    predicate Has(px: nat, py: nat) { x <= px < x + w && y <= py < y + h }
  }

  /** Pixel (px, py) of a framebuffer is the cell `px + py * pitch`. */
  function At(px: nat, py: nat, pitch: pos): nat { px + py * pitch }

  /** The offset of a scanline as the code computes it, in 32-bit unsigned arithmetic. */
  function ScanlineOffset(line: nat, pitch: pos): u32 { line * pitch % 0x1_0000_0000 }

  /** The pixel that cell `i` belongs to. */
  function X(i: nat, pitch: pos): nat { i % pitch }

  function Y(i: nat, pitch: pos): nat { i / pitch }

  /**
   The image after the rectangle's rows above `row` and the first `col` pixels of that row are
   painted with `f`, everything else being as in `img`.
   */
  function PaintedTo(img: seq<u32>, pitch: pos, r: Rect, f: (nat, nat) -> u32, row: nat, col: nat): (r': seq<u32>)
    ensures |r'| == |img|
  {
    seq(|img|, i requires 0 <= i < |img| => Shade(img[i], X(i, pitch), Y(i, pitch), r, f, row, col))
  }

  function Shade(base: u32, px: nat, py: nat, r: Rect, f: (nat, nat) -> u32, row: nat, col: nat): u32 {
    if r.(h := row).Has(px, py) || Rect(r.x, r.y + row, col, 1).Has(px, py) then f(px, py) else base
  }

  function Const(c: u32): (nat, nat) -> u32 { (_, _) => c }

  function Painted(img: seq<u32>, pitch: pos, r: Rect, f: (nat, nat) -> u32): (r': seq<u32>)
    ensures |r'| == |img|
  {
    PaintedTo(img, pitch, r, f, r.h, 0)
  }

  /** The rectangle lies inside the scanlines of a framebuffer that 32-bit offsets reach. */
  predicate Fits(r: Rect, pitch: pos, size: nat) {
    r.w > 0 && r.h > 0 ==>
      r.x + r.w <= pitch && At(r.x + r.w, r.y + r.h - 1, pitch) <= size <= 0x1_0000_0000
  }

  /** A pixel inside the pitch is addressed by one cell only. */
  lemma AddressUnique(px: nat, py: nat, pitch: pos)
    requires px < pitch
    ensures X(At(px, py, pitch), pitch) == px && Y(At(px, py, pitch), pitch) == py
  {
    DivModUnique(py, px, pitch);
  }

  lemma AddressOf(i: nat, pitch: pos)
    ensures At(X(i, pitch), Y(i, pitch), pitch) == i && X(i, pitch) < pitch
  {
  }

  lemma PixelInside(r: Rect, pitch: pos, size: nat, row: nat, col: nat)
    requires Fits(r, pitch, size) && row < r.h && col < r.w
    ensures r.x + col < pitch && At(r.x + col, r.y + row, pitch) < size
    ensures r.x + col + ScanlineOffset(r.y + row, pitch) == At(r.x + col, r.y + row, pitch)
  {
    assert (r.y + row) * pitch <= (r.y + r.h - 1) * pitch;
  }

  /** Painting one more pixel is storing one more cell. */
  lemma PaintStep(img: seq<u32>, pitch: pos, r: Rect, f: (nat, nat) -> u32, row: nat, col: nat)
    requires Fits(r, pitch, |img|) && row < r.h && col < r.w
    ensures At(r.x + col, r.y + row, pitch) < |img|
    ensures PaintedTo(img, pitch, r, f, row, col + 1)
      == PaintedTo(img, pitch, r, f, row, col)[At(r.x + col, r.y + row, pitch) := f(r.x + col, r.y + row)]
  {
    hide X, Y, At, Fits;
    PixelInside(r, pitch, |img|, row, col);
    AddressUnique(r.x + col, r.y + row, pitch);
    var k := At(r.x + col, r.y + row, pitch);
    forall i | 0 <= i < |img| && i != k
      ensures !(X(i, pitch) == r.x + col && Y(i, pitch) == r.y + row)
    {
      AddressOf(i, pitch);
    }
  }

  /** A finished row is the start of the next. */
  lemma RowDone(img: seq<u32>, pitch: pos, r: Rect, f: (nat, nat) -> u32, row: nat)
    ensures PaintedTo(img, pitch, r, f, row, r.w) == PaintedTo(img, pitch, r, f, row + 1, 0)
  {
  }

  lemma NothingPainted(img: seq<u32>, pitch: pos, r: Rect, f: (nat, nat) -> u32)
    ensures PaintedTo(img, pitch, r, f, 0, 0) == img
  {
  }

  method DrawRect(fb: array<u32>, pitch: u32, x: u16, y: u16, width: u16, height: u16, color: u32)
    requires pitch > 0 && Fits(Rect(x, y, width, height), pitch, fb.Length)
    modifies fb
    ensures fb[..] == Painted(old(fb[..]), pitch, Rect(x, y, width, height), Const(color))
  {
    hide At, Fits, ScanlineOffset, PaintedTo;
    ghost var img, r := fb[..], Rect(x, y, width, height);
    ghost var f := Const(color);
    NothingPainted(img, pitch, r, f);
    var row := 0;
    while row < height
      invariant row <= height
      invariant fb[..] == PaintedTo(img, pitch, r, f, row, 0)
    {
      var col := 0;
      while col < width
        invariant col <= width
        invariant fb[..] == PaintedTo(img, pitch, r, f, row, col)
      {
        PixelInside(r, pitch, fb.Length, row, col);
        PaintStep(img, pitch, r, f, row, col);
        var at := x + col;
        at := at + ScanlineOffset(y + row, pitch);
        fb[at] := color;
        col := col + 1;
      }
      RowDone(img, pitch, r, f, row);
      row := row + 1;
    }
  }

  method DrawPixel(fb: array<u32>, pitch: u32, x: u16, y: u16, color: u32)
    requires pitch > 0 && Fits(Rect(x, y, 1, 1), pitch, fb.Length)
    modifies fb
    ensures x + y * pitch == At(x, y, pitch) < fb.Length && fb[..] == old(fb[..])[At(x, y, pitch) := color]
  {
    PixelInside(Rect(x, y, 1, 1), pitch, fb.Length, 0, 0);
    var at := x + ScanlineOffset(y, pitch);
    fb[at] := color;
  }

  lemma CellOf(px: nat, py: nat, pitch: pos)
    ensures At(px, py, pitch) == px + py * pitch
  {
  }

  /** Exactly the rectangle's pixels get the colour: by pixel, not by cell. */
  lemma PaintedAt(img: seq<u32>, pitch: pos, r: Rect, f: (nat, nat) -> u32, px: nat, py: nat)
    requires px < pitch && At(px, py, pitch) < |img|
    ensures At(px, py, pitch) == px + py * pitch
    ensures Painted(img, pitch, r, f)[At(px, py, pitch)]
      == if r.x <= px < r.x + r.w && r.y <= py < r.y + r.h then f(px, py) else img[At(px, py, pitch)]
  {
    CellOf(px, py, pitch);
    hide X, Y, At;
    AddressUnique(px, py, pitch);
  }

  /** Fills of rectangles without a common pixel commute. */
  lemma FillsCommute(img: seq<u32>, pitch: pos, r: Rect, f: (nat, nat) -> u32, r': Rect, f': (nat, nat) -> u32)
    requires forall px, py :: r.Has(px, py) ==> !r'.Has(px, py)
    ensures Painted(Painted(img, pitch, r, f), pitch, r', f') == Painted(Painted(img, pitch, r', f'), pitch, r, f)
  {
  }

  // ------------------------------------------------------------------ colours

  type u8 = x: nat | x < 256

  function PackColour(r: u8, g: u8, b: u8): (c: u32)
    ensures c == r * 0x1_0000 + g * 0x100 + b
  {
    PackIsSum(r, g, b);
    Or(Or(Shl(r, 16), Shl(g, 8)), b)
  }

  lemma PackIsSum(r: u8, g: u8, b: u8)
    ensures Or(Or(Shl(r, 16), Shl(g, 8)), b) == r * 0x1_0000 + g * 0x100 + b
  {
    PowersOfTwo();
    OrDisjoint(r, Shl(g, 8), 16);
    assert Shl(r, 16) + Shl(g, 8) == Shl(r * 256 + g, 8);
    OrDisjoint(r * 256 + g, b, 8);
  }

  lemma PowersOfTwo()
    ensures Pow2(4) == 16 && Pow2(8) == 256 && Pow2(16) == 0x1_0000
  {
  }

  /** Packing loses nothing. */
  lemma PackInjective(r: u8, g: u8, b: u8, r': u8, g': u8, b': u8)
    ensures PackColour(r, g, b) == PackColour(r', g', b') <==> r == r' && g == g' && b == b'
  {
    hide PackColour;
    Components(r, g, b);
    Components(r', g', b');
  }

  lemma Components(r: u8, g: u8, b: u8)
    ensures var c := PackColour(r, g, b); c / 0x1_0000 == r && c / 0x100 % 0x100 == g && c % 0x100 == b
  {
    hide PackColour;
    DivModUnique(r, g * 0x100 + b, 0x1_0000);
    DivModUnique(r * 0x100 + g, b, 0x100);
    DivModUnique(r, g, 0x100);
  }
}
