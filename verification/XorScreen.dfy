/** The kernel's test screen: `draw_test_screen` of kernel.c. */
module XorScreen {
  import opened Bits
  import opened Framebuffer

  /** The colour of texture value `c`. */
  function Colour(c: u8): u32 { PackColour(255 - c % 128, c, c % 128) }

  function Value(x: nat, y: nat): u8 { Xor(x, y) % 256 }

  function Texel(x: nat, y: nat): u32 { Colour(Value(x, y)) }

  function Screen(width: nat, height: nat): Rect { Rect(0, 0, width, height) }

  /** Incrementing a 16-bit counter. */
  function Bump(n: u16): u16 { (n + 1) % 0x1_0000 }

  /** The resolutions for which the loops end: `EndsExactly` below. */
  predicate CountersReach(horizontal: u32, vertical: u32) {
    vertical < 0x1_0000 && (vertical > 0 ==> horizontal < 0x1_0000)
  }

  /** A pixel of a rectangle that fits is a rectangle that fits. */
  lemma PixelFits(r: Rect, pitch: pos, size: nat, x: nat, y: nat)
    requires Fits(r, pitch, size) && r.x == r.y == 0 && x < r.w && y < r.h
    ensures Fits(Rect(x, y, 1, 1), pitch, size)
  {
  }

  method DrawTestScreen(fb: array<u32>, horizontal: u32, vertical: u32, pitch: u32)
    requires CountersReach(horizontal, vertical)
    requires pitch > 0 && Fits(Screen(horizontal, vertical), pitch, fb.Length)
    modifies fb
    ensures fb[..] == Painted(old(fb[..]), pitch, Screen(horizontal, vertical), Texel)
  {
    hide At, Fits, PaintedTo, Colour, Value;
    ghost var img, r := fb[..], Screen(horizontal, vertical);
    NothingPainted(img, pitch, r, Texel);
    var y: u16 := 0;
    while y < vertical
      invariant y <= vertical
      invariant fb[..] == PaintedTo(img, pitch, r, Texel, y, 0)
    {
      var x: u16 := 0;
      while x < horizontal
        invariant x <= horizontal
        invariant fb[..] == PaintedTo(img, pitch, r, Texel, y, x)
      {
        var c := Value(x, y);
        var colour := Colour(c);
        PixelInside(r, pitch, fb.Length, y, x);
        PaintStep(img, pitch, r, Texel, y, x);
        PixelFits(r, pitch, fb.Length, x, y);
        DrawPixel(fb, pitch, x, y, colour);
        x := Bump(x);
      }
      RowDone(img, pitch, r, Texel, y);
      y := Bump(y);
    }
  }

  // ------------------------------------------------------------------ when the loops end

  /** Where control is: at the test of the outer loop, at that of the inner one, or past both. */
  datatype Control = Row(y: u16) | Pixel(y: u16, x: u16) | Finished

  /** One test and what follows up to the next one. */
  function Step(c: Control, horizontal: u32, vertical: u32): Control {
    match c
    case Row(y) => if y < vertical then Pixel(y, 0) else Finished
    case Pixel(y, x) => if x < horizontal then Pixel(y, Bump(x)) else Row(Bump(y))
    case Finished => Finished
  }

  function After(horizontal: u32, vertical: u32, n: nat): Control {
    if n == 0 then Row(0) else Step(After(horizontal, vertical, n - 1), horizontal, vertical)
  }

  ghost predicate Ends(horizontal: u32, vertical: u32) {
    exists n: nat :: After(horizontal, vertical, n) == Finished
  }

  /** The number of tests before row `y` is reached. */
  function RowStart(horizontal: u32, y: nat): nat {
    if y == 0 then 0 else RowStart(horizontal, y - 1) + horizontal + 2
  }

  /** Each row is reached, and each pixel of a row, in turn. */
  lemma {:induction false} RowReached(horizontal: u32, vertical: u32, y: u16)
    requires CountersReach(horizontal, vertical) && y <= vertical
    ensures After(horizontal, vertical, RowStart(horizontal, y)) == Row(y)
    decreases y, 1
  {
    if y == 0 {
    } else {
      PixelReached(horizontal, vertical, y - 1, horizontal);
    }
  }

  lemma {:induction false} PixelReached(horizontal: u32, vertical: u32, y: u16, x: u16)
    requires CountersReach(horizontal, vertical) && y < vertical && x <= horizontal
    ensures After(horizontal, vertical, RowStart(horizontal, y) + 1 + x) == Pixel(y, x)
    decreases y, 2 + x
  {
    if x == 0 {
      RowReached(horizontal, vertical, y);
    } else {
      PixelReached(horizontal, vertical, y, x - 1);
    }
  }

  /** A counter that wraps before its limit never gets past the loop. */
  lemma {:induction false} NeverEnds(horizontal: u32, vertical: u32, n: nat)
    requires !CountersReach(horizontal, vertical)
    ensures !After(horizontal, vertical, n).Finished?
    ensures var c := After(horizontal, vertical, n);
      vertical < 0x1_0000 ==> c == Row(0) || (c.Pixel? && c.y == 0)
  {
    if n == 0 {
    } else {
      NeverEnds(horizontal, vertical, n - 1);
    }
  }

  /** The loops end exactly where both 16-bit counters can reach their limits. */
  lemma EndsExactly(horizontal: u32, vertical: u32)
    ensures Ends(horizontal, vertical) <==> CountersReach(horizontal, vertical)
  {
    if CountersReach(horizontal, vertical) {
      RowReached(horizontal, vertical, vertical);
      assert After(horizontal, vertical, RowStart(horizontal, vertical) + 1) == Finished;
    } else {
      forall n: nat ensures After(horizontal, vertical, n) != Finished { NeverEnds(horizontal, vertical, n); }
    }
  }

  // ------------------------------------------------------------------ the picture

  /** The texture is right at every visible pixel, and nothing else is touched. */
  lemma Textured(img: seq<u32>, pitch: pos, width: nat, height: nat, px: nat, py: nat)
    requires px < pitch && At(px, py, pitch) < |img|
    ensures At(px, py, pitch) == px + py * pitch
    ensures var c := Xor(px, py) % 256;
      Painted(img, pitch, Screen(width, height), Texel)[At(px, py, pitch)]
      == if px < width && py < height then (255 - c % 128) * 0x1_0000 + c * 0x100 + c % 128
         else img[At(px, py, pitch)]
  {
    hide Painted, At, Xor;
    PaintedAt(img, pitch, Screen(width, height), Texel, px, py);
  }

  /** The 256 texture values have 256 different colours. */
  lemma ColoursDiffer(c: u8, c': u8)
    ensures Colour(c) == Colour(c') <==> c == c'
  {
    PackInjective(255 - c % 128, c, c % 128, 255 - c' % 128, c', c' % 128);
  }

  /** The one place in a line of 256, crossing line `y`, where texture value `c` lies. */
  function Place(c: u8, y: nat): nat { Xor(c, y % 256) }

  lemma PlaceBound(c: u8, y: nat)
    ensures Place(c, y) < 256
  {
    hide Xor, Pow2;
    PowersOfTwo();
    XorLow(c, y % 256, 8);
  }

  /** In an aligned line of 256 positions each value occurs exactly once. */
  lemma OnePlace(block: nat, x: nat, y: nat, c: u8)
    requires block % 256 == 0 && block <= x < block + 256
    ensures Value(x, y) == c <==> x == block + Place(c, y)
  {
    hide Xor, Pow2;
    PowersOfTwo();
    XorLow(x, y, 8);
    var a, b := x % 256, y % 256;
    assert Value(x, y) == Xor(a, b);
    XorTwice(a, b);
    XorTwice(c, b);
    PlaceBound(c, y);
  }

  /**
   A Latin square.  In every aligned 256x256 block of the screen each of the 256 colours occurs
   exactly once in each row and exactly once in each column: at the place given.
   */
  lemma LatinSquare(img: seq<u32>, pitch: pos, width: nat, height: nat, left: nat, top: nat, px: nat, py: nat, c: u8)
    requires left % 256 == 0 && top % 256 == 0 && left + 256 <= width <= pitch && top + 256 <= height
    requires left <= px < left + 256 && top <= py < top + 256 && At(px, py, pitch) < |img|
    ensures Place(c, py) < 256 && Place(c, px) < 256
    ensures var s := Painted(img, pitch, Screen(width, height), Texel);
      && (s[At(px, py, pitch)] == Colour(c) <==> px == left + Place(c, py))
      && (s[At(px, py, pitch)] == Colour(c) <==> py == top + Place(c, px))
  {
    hide Painted, At, Colour, Place, Value, Xor;
    PaintedAt(img, pitch, Screen(width, height), Texel, px, py);
    ColoursDiffer(Value(px, py), c);
    OnePlace(left, px, py, c);
    OnePlace(top, py, px, c);
    Symmetric(px, py);
    PlaceBound(c, py);
    PlaceBound(c, px);
  }

  /** The texture is symmetric. */
  lemma Symmetric(x: nat, y: nat)
    ensures Value(x, y) == Value(y, x)
  {
    XorCommutes(x, y);
  }

  lemma SymmetricImage(img: seq<u32>, pitch: pos, width: nat, height: nat, px: nat, py: nat)
    requires px < width && py < height && py < width && px < height && width <= pitch
    requires At(px, py, pitch) < |img| && At(py, px, pitch) < |img|
    ensures var s := Painted(img, pitch, Screen(width, height), Texel);
      s[At(px, py, pitch)] == s[At(py, px, pitch)]
  {
    hide Painted, At, Colour, Value;
    PaintedAt(img, pitch, Screen(width, height), Texel, px, py);
    PaintedAt(img, pitch, Screen(width, height), Texel, py, px);
    Symmetric(px, py);
  }
}
