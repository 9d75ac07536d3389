/**
 * The pixel-buffer annotation applied to every freshly decoded image before
 * it is uploaded as a texture: the top-left corner, at most 50 x 50 pixels,
 * is painted opaque red.
 *
 * A decoded image is a row-major RGBA buffer of 8-bit channels: pixel (x, y)
 * of an image `width` pixels wide occupies the four bytes starting at
 * (y * width + x) * 4, in the order red, green, blue, alpha.
 */
module Pixels {

  /** One 8-bit colour channel. */
  newtype Byte = b: int | 0 <= b < 256

  /** Image dimensions are unsigned 32-bit integers. */
  type U32 = n: int | 0 <= n < 0x1_0000_0000

  /** Side of the square marker, in pixels. */
  const MarkerSide: U32 := 50

  /** The marker colour: opaque, fully saturated red. */
  const Red: seq<Byte> := [255, 0, 0, 255]

  /** The extent of the marker along a dimension of `d` pixels: the marker is clipped to the image. */
  function Clip(d: U32): (r: U32)
    ensures r <= MarkerSide && r <= d
    ensures r == MarkerSide || r == d
  {
    if MarkerSide <= d then MarkerSide else d
  }

  /** Index of channel `c` of pixel (x, y) in a buffer whose rows are `width` pixels wide. */
  function Offset(width: nat, x: nat, y: nat, c: nat): (r: nat)
  {
    (y * width + x) * 4 + c
  }

  /** Column of the pixel that byte `i` belongs to. */
  function Column(i: nat, width: nat): (r: nat)
    requires width > 0
  {
    (i / 4) % width
  }

  /** Row of the pixel that byte `i` belongs to. */
  function Row(i: nat, width: nat): (r: nat)
    requires width > 0
  {
    (i / 4) / width
  }

  /** Byte `i` belongs to a pixel inside the (clipped) marker rectangle. */
  predicate InMarker(i: nat, width: U32, height: U32)
  {
    width > 0 && Column(i, width) < Clip(width) && Row(i, width) < Clip(height)
  }

  /**
   * The buffer after annotation: every byte of a pixel inside the marker
   * holds the matching channel of Red, every other byte is as before.
   */
  function Annotated(s: seq<Byte>, width: U32, height: U32): (r: seq<Byte>)
    ensures |r| == |s|
  {
    seq(|s|, i requires 0 <= i < |s| => if InMarker(i, width, height) then Red[i % 4] else s[i])
  }

  /** A buffer of `pixels` pixels that are all the marker colour. */
  function RedFill(pixels: nat): (r: seq<Byte>)
    ensures |r| == pixels * 4
  {
    seq(pixels * 4, i requires 0 <= i < pixels * 4 => Red[i % 4])
  }

  // ---------------------------------------------------------------------------
  // Arithmetic of the row-major layout

  /** Euclidean division is determined by any quotient/remainder pair. */
  lemma DivModUnique(n: int, d: int, q: int, r: int)
    requires d > 0 && 0 <= r < d && n == q * d + r
    ensures n / d == q && n % d == r
  {
    var q', r' := n / d, n % d;
    if q' < q {
      MulMonotone(q' + 1, q, d);
    } else if q < q' {
      MulMonotone(q + 1, q', d);
    }
  }

  lemma MulMonotone(a: int, b: int, d: int)
    requires a <= b && d >= 0
    ensures a * d <= b * d
  {
  }

  /** The byte at Offset(width, x, y, c) is channel c of pixel (x, y). */
  lemma OffsetDecodes(width: nat, x: nat, y: nat, c: nat)
    requires x < width && c < 4
    ensures Offset(width, x, y, c) / 4 == y * width + x
    ensures Offset(width, x, y, c) % 4 == c
    ensures Column(Offset(width, x, y, c), width) == x
    ensures Row(Offset(width, x, y, c), width) == y
  {
    DivModUnique(Offset(width, x, y, c), 4, y * width + x, c);
    DivModUnique(y * width + x, width, y, x);
  }

  /** Every byte index is the offset of some channel of the pixel given by Column and Row. */
  lemma OffsetCovers(i: nat, width: nat)
    requires width > 0
    ensures Column(i, width) < width && i % 4 < 4
    ensures i == Offset(width, Column(i, width), Row(i, width), i % 4)
  {
    var p := i / 4;
    assert i == p * 4 + i % 4;
    assert p == Row(i, width) * width + Column(i, width);
  }

  /** For x < width and y < height, every channel of pixel (x, y) lies inside a width x height buffer. */
  lemma OffsetInBounds(width: nat, height: nat, x: nat, y: nat, c: nat)
    requires x < width && y < height && c < 4
    ensures Offset(width, x, y, c) < width * height * 4
  {
    assert y * width + x < (y + 1) * width;
    assert (y + 1) * width <= height * width;
    assert (y * width + x) * 4 + c < ((y * width + x) + 1) * 4;
    assert ((y * width + x) + 1) * 4 <= height * width * 4;
  }

  /** Every byte of a width x height buffer belongs to a pixel (x, y) with x < width and y < height. */
  lemma ByteHasPixel(i: nat, width: nat, height: nat)
    requires i < width * height * 4
    ensures width > 0 && Column(i, width) < width && Row(i, width) < height
    ensures i == Offset(width, Column(i, width), Row(i, width), i % 4)
  {
    assert width > 0;
    OffsetCovers(i, width);
  }

  // ---------------------------------------------------------------------------
  // Properties of the annotation

  /** Every channel of every pixel inside the clipped marker rectangle is the marker colour. */
  lemma AnnotatedPaintsMarker(s: seq<Byte>, width: U32, height: U32, x: nat, y: nat, c: nat)
    requires |s| == width * height * 4
    requires x < Clip(width) && y < Clip(height) && c < 4
    ensures Offset(width, x, y, c) < |s|
    ensures Annotated(s, width, height)[Offset(width, x, y, c)] == Red[c]
  {
    OffsetInBounds(width, height, x, y, c);
    OffsetDecodes(width, x, y, c);
  }

  /** Every channel of every pixel of the image outside the marker rectangle is unchanged. */
  lemma AnnotatedKeepsOutside(s: seq<Byte>, width: U32, height: U32, x: nat, y: nat, c: nat)
    requires |s| == width * height * 4
    requires x < width && y < height && c < 4
    requires !(x < Clip(width) && y < Clip(height))
    ensures Offset(width, x, y, c) < |s|
    ensures Annotated(s, width, height)[Offset(width, x, y, c)] == s[Offset(width, x, y, c)]
  {
    OffsetInBounds(width, height, x, y, c);
    OffsetDecodes(width, x, y, c);
  }

  /** Annotating an already annotated buffer changes nothing. */
  lemma AnnotatedIdempotent(s: seq<Byte>, width: U32, height: U32)
    ensures Annotated(Annotated(s, width, height), width, height) == Annotated(s, width, height)
  {
  }

  /** An image no larger than the marker in both dimensions becomes entirely the marker colour. */
  lemma AnnotatedSmallImage(s: seq<Byte>, width: U32, height: U32)
    requires |s| == width * height * 4
    requires width <= MarkerSide && height <= MarkerSide
    ensures Annotated(s, width, height) == RedFill(width * height)
  {
    forall i | 0 <= i < |s|
      ensures Annotated(s, width, height)[i] == RedFill(width * height)[i]
    {
      ByteHasPixel(i, width, height);
    }
  }

  // ---------------------------------------------------------------------------
  // The in-place annotation

  /**
   * Byte `i` belongs to a pixel already painted when the loop in Annotate
   * reaches pixel (x, y): a full row before y, or an earlier pixel of row y.
   */
  predicate Painted(i: nat, width: U32, side: nat, y: nat, x: nat)
  {
    width > 0 &&
    ((Row(i, width) < y && Column(i, width) < side) || (Row(i, width) == y && Column(i, width) < x))
  }

  /** Writes one RGBA colour to pixel (x, y); the image is the caller's width x height buffer. */
  method PutPixel(a: array<Byte>, width: U32, height: U32, x: U32, y: U32, color: seq<Byte>)
    requires a.Length == width * height * 4
    requires x < width && y < height && |color| == 4
    modifies a
    ensures Offset(width, x, y, 3) < a.Length
    ensures forall i :: 0 <= i < a.Length ==>
      a[i] == if Offset(width, x, y, 0) <= i < Offset(width, x, y, 0) + 4
              then color[i - Offset(width, x, y, 0)] else old(a[i])
  {
    OffsetInBounds(width, height, x, y, 3);
    var base := Offset(width, x, y, 0);
    a[base] := color[0];
    a[base + 1] := color[1];
    a[base + 2] := color[2];
    a[base + 3] := color[3];
  }

  /**
   * Converts decoded pixels into a fresh RGBA buffer and paints its top-left
   * Clip(width) x Clip(height) pixels red, row by row, in place; returns the
   * buffer's final contents.
   */
  method Annotate(pixels: seq<Byte>, width: U32, height: U32) returns (rgba: seq<Byte>)
    requires |pixels| == width * height * 4
    ensures rgba == Annotated(pixels, width, height)
  {
    var a := new Byte[|pixels|](i requires 0 <= i < |pixels| => pixels[i]);
    var rows, cols := Clip(height), Clip(width);
    var y: U32 := 0;
    while y < rows
      invariant y <= rows
      invariant forall i :: 0 <= i < a.Length ==>
        a[i] == if Painted(i, width, cols, y, 0) then Red[i % 4] else pixels[i]
    {
      var x: U32 := 0;
      while x < cols
        invariant x <= cols
        invariant forall i :: 0 <= i < a.Length ==>
          a[i] == if Painted(i, width, cols, y, x) then Red[i % 4] else pixels[i]
      {
        ghost var before := a[..];
        PutPixel(a, width, height, x, y, Red);
        forall i | 0 <= i < a.Length
          ensures a[i] == if Painted(i, width, cols, y, x + 1) then Red[i % 4] else pixels[i]
        {
          var base := Offset(width, x, y, 0);
          if base <= i < base + 4 {
            OffsetDecodes(width, x, y, i - base);
          } else {
            OffsetCovers(i, width);
            if Row(i, width) == y && Column(i, width) == x {
              assert false;
            }
            assert a[i] == before[i];
          }
        }
        x := x + 1;
      }
      y := y + 1;
    }
    rgba := a[..];
    assert forall i :: 0 <= i < |rgba| ==> rgba[i] == Annotated(pixels, width, height)[i];
  }
}
