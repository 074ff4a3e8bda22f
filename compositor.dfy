/** The alpha compositor: every pixel of the original image is mapped into the
    320x320 refined mask, the mask is sampled there by bilinear interpolation,
    and the result, scaled to a byte, overwrites that pixel's alpha byte. */
module Compositor {
  import opened Base

  /** Where pixel p of a row (or column) of `extent` pixels lands on a mask axis of
      `size` cells: (p / extent) * (size - 1). It lies in [0, size - 1). */
  function MaskCoord(p: nat, extent: nat, size: nat): (m: real)
    requires p < extent && size >= 1
    ensures 0.0 <= m
    ensures size >= 2 ==> m < (size - 1) as real
  {
    var q := p as real / extent as real;
    assert q * extent as real == p as real;
    assert q < 1.0;
    q * (size - 1) as real
  }

  /** The four mask cells around a mapped point and its fractional offsets:
      corners (x1, y1), (x2, y1), (x1, y2), (x2, y2), weights dx and dy. */
  datatype Sample = Sample(x1: int, x2: int, y1: int, y2: int, dx: real, dy: real)

  /** The bilinear sample for destination pixel (x, y) of a width x height image. Both
      floors lie in [0, W - 2], so the clamp min(x1 + 1, W - 1) never binds and every corner
      is inside the mask; the offsets lie in [0, 1). */
  function SampleAt(x: nat, y: nat, width: nat, height: nat): (s: Sample)
    requires x < width && y < height
    ensures 0 <= s.x1 <= W - 2 && s.x2 == s.x1 + 1
    ensures 0 <= s.y1 <= H - 2 && s.y2 == s.y1 + 1
    ensures 0.0 <= s.dx < 1.0 && 0.0 <= s.dy < 1.0
    ensures s.x1 as real + s.dx == MaskCoord(x, width, W)
    ensures s.y1 as real + s.dy == MaskCoord(y, height, H)
  {
    var maskX := MaskCoord(x, width, W);
    var maskY := MaskCoord(y, height, H);
    var x1 := maskX.Floor;
    var y1 := maskY.Floor;
    var x2 := if x1 + 1 <= W - 1 then x1 + 1 else W - 1;
    var y2 := if y1 + 1 <= H - 1 then y1 + 1 else H - 1;
    Sample(x1, x2, y1, y2, maskX - x1 as real, maskY - y1 as real)
  }

  /** Linear interpolation from a (t = 0) to b (t = 1). */
  function Lerp(a: real, b: real, t: real): (r: real)
    ensures t == 0.0 ==> r == a
    ensures t == 1.0 ==> r == b
  {
    a + (b - a) * t
  }

  /** Interpolation along x on the top and bottom rows, then along y. */
  function Bilinear(tl: real, tr: real, bl: real, br: real, dx: real, dy: real): (v: real)
    ensures dx == 0.0 && dy == 0.0 ==> v == tl
    ensures dx == 1.0 && dy == 0.0 ==> v == tr
    ensures dx == 0.0 && dy == 1.0 ==> v == bl
    ensures dx == 1.0 && dy == 1.0 ==> v == br
  {
    var top := Lerp(tl, tr, dx);
    var bottom := Lerp(bl, br, dx);
    Lerp(top, bottom, dy)
  }

  /** With offsets in [0, 1] the interpolated value is the convex combination of the four
      corners with weights (1-dx)(1-dy), dx(1-dy), (1-dx)dy and dx dy, and so lies between
      the least and the greatest corner. */
  lemma BilinearIsConvex(tl: real, tr: real, bl: real, br: real, dx: real, dy: real)
    requires 0.0 <= dx <= 1.0 && 0.0 <= dy <= 1.0
    ensures Bilinear(tl, tr, bl, br, dx, dy) ==
              (1.0 - dx) * (1.0 - dy) * tl + dx * (1.0 - dy) * tr + (1.0 - dx) * dy * bl + dx * dy * br
    ensures Min(Min(tl, tr), Min(bl, br)) <= Bilinear(tl, tr, bl, br, dx, dy) <= Max(Max(tl, tr), Max(bl, br))
  {
    var top := Lerp(tl, tr, dx);
    var bottom := Lerp(bl, br, dx);
    LerpBetween(tl, tr, dx);
    LerpBetween(bl, br, dx);
    LerpBetween(top, bottom, dy);
  }

  /** a + (b - a) t for t in [0, 1] lies between a and b. */
  lemma LerpBetween(a: real, b: real, t: real)
    requires 0.0 <= t <= 1.0
    ensures Min(a, b) <= Lerp(a, b, t) <= Max(a, b)
  {
    var d := b - a;
    if d >= 0.0 {
      ProductNonNegative(d, t);
      ProductNonNegative(d, 1.0 - t);
    } else {
      ProductNonNegative(-d, t);
      ProductNonNegative(-d, 1.0 - t);
    }
  }

  lemma ProductNonNegative(a: real, b: real)
    requires a >= 0.0 && b >= 0.0
    ensures a * b >= 0.0
  {
  }

  /** Cell (x, y) of the mask, row-major. */
  function At(mask: MaskPlane, x: int, y: int): real
    requires 0 <= x < W && 0 <= y < H
  {
    mask[y * W + x]
  }

  /** The interpolated mask value for destination pixel (x, y). */
  function InterpolatedAlpha(mask: MaskPlane, width: nat, height: nat, x: nat, y: nat): real
    requires x < width && y < height
  {
    var s := SampleAt(x, y, width, height);
    Bilinear(At(mask, s.x1, s.y1), At(mask, s.x2, s.y1), At(mask, s.x1, s.y2), At(mask, s.x2, s.y2), s.dx, s.dy)
  }

  /** The interpolated value never leaves the range of the mask. */
  lemma AlphaWithinMaskRange(mask: MaskPlane, width: nat, height: nat, x: nat, y: nat, lo: real, hi: real)
    requires x < width && y < height
    requires forall i :: 0 <= i < N ==> lo <= mask[i] <= hi
    ensures lo <= InterpolatedAlpha(mask, width, height, x, y) <= hi
  {
    var s := SampleAt(x, y, width, height);
    BilinearIsConvex(At(mask, s.x1, s.y1), At(mask, s.x2, s.y1), At(mask, s.x1, s.y2), At(mask, s.x2, s.y2), s.dx, s.dy);
  }

  /** A pixel that maps exactly onto a mask cell, because (W - 1) x is a multiple of the
      width and (H - 1) y a multiple of the height, takes that cell's value unblended. */
  lemma AlignedPixelIsExact(mask: MaskPlane, width: nat, height: nat, x: nat, y: nat)
    requires x < width && y < height
    requires (x * (W - 1)) % width == 0 && (y * (H - 1)) % height == 0
    ensures (x * (W - 1)) / width < W && (y * (H - 1)) / height < H
    ensures InterpolatedAlpha(mask, width, height, x, y) == At(mask, (x * (W - 1)) / width, (y * (H - 1)) / height)
  {
    var kx := (x * (W - 1)) / width;
    var ky := (y * (H - 1)) / height;
    ExactCoord(x, width, W, kx);
    ExactCoord(y, height, H, ky);
    var s := SampleAt(x, y, width, height);
    assert s.x1 == kx && s.dx == 0.0;
    assert s.y1 == ky && s.dy == 0.0;
  }

  lemma ExactCoord(p: nat, extent: nat, size: nat, k: int)
    requires p < extent && size >= 2
    requires (p * (size - 1)) % extent == 0 && k == (p * (size - 1)) / extent
    ensures MaskCoord(p, extent, size) == k as real && 0 <= k < size
  {
    assert p * (size - 1) == k * extent;
    var q := p as real / extent as real;
    assert q * extent as real == p as real;
    assert (k as real) * extent as real == (p * (size - 1)) as real;
    assert q * (size - 1) as real * extent as real == (k as real) * extent as real;
    assert q * (size - 1) as real == k as real;
  }

  /** The alpha byte for an interpolated value: round(max(0, min(255, 255 a))). Values
      in [0, 1] are scaled and rounded, values outside are clamped to 0 or 255. */
  function AlphaByte(alpha: real): (b: Byte)
    ensures 0.0 <= alpha <= 1.0 ==> b == Round(alpha * 255.0)
    ensures alpha >= 1.0 ==> b == 255
    ensures alpha <= 0.0 ==> b == 0
  {
    Round(Max(0.0, Min(255.0, alpha * 255.0)))
  }

  /** The alpha byte written for pixel p (row-major) of a width x height image. */
  function PixelAlpha(mask: MaskPlane, width: nat, height: nat, p: nat): Byte
    requires p < width * height
  {
    GridRowColumn(p, width, height);
    AlphaByte(InterpolatedAlpha(mask, width, height, p % width, p / width))
  }

  /** The composited RGBA buffer: byte 4p + 3 of every pixel p is that pixel's alpha,
      every other byte is the original's. */
  function Composited(original: seq<Byte>, width: nat, height: nat, mask: MaskPlane): (out: seq<Byte>)
    requires |original| == 4 * (width * height)
  {
    seq(|original|, j requires 0 <= j < |original| =>
      if j % 4 == 3 then PixelAlpha(mask, width, height, j / 4) else original[j])
  }

  /** Compositing keeps the size of the buffer and every red, green and blue byte. */
  lemma CompositedKeepsColour(original: seq<Byte>, width: nat, height: nat, mask: MaskPlane)
    requires |original| == 4 * (width * height)
    ensures |Composited(original, width, height, mask)| == |original|
    ensures forall p, c :: 0 <= p < width * height && 0 <= c < 3 ==>
              Composited(original, width, height, mask)[Slot(p, c)] == original[Slot(p, c)]
  {
    var out := Composited(original, width, height, mask);
    forall p, c | 0 <= p < width * height && 0 <= c < 3
      ensures out[Slot(p, c)] == original[Slot(p, c)]
    {
      assert Slot(p, c) % 4 == c;
    }
  }

  /** Compositing writes the interpolated alpha of pixel (x, y) into byte 4 (y width + x) + 3,
      the byte the loops address as pixelIdx + 3. */
  lemma CompositedWritesAlpha(original: seq<Byte>, width: nat, height: nat, mask: MaskPlane, x: nat, y: nat)
    requires |original| == 4 * (width * height) && x < width && y < height
    ensures y * width + x < width * height
    ensures Composited(original, width, height, mask)[Slot(y * width + x, 3)] ==
              AlphaByte(InterpolatedAlpha(mask, width, height, x, y))
  {
    PositionInGrid(x, y, width, height);
    RowColumn(x, y, width);
    var q := y * width + x;
    assert Slot(q, 3) % 4 == 3 && Slot(q, 3) / 4 == q;
  }

  /** A uniform mask of value v gives every pixel the alpha byte of v: a mask that is 1
      everywhere makes the image opaque (255), one that is 0 everywhere transparent (0). */
  lemma UniformMaskAlpha(mask: MaskPlane, v: real, width: nat, height: nat, p: nat)
    requires forall i :: 0 <= i < N ==> mask[i] == v
    requires p < width * height
    ensures PixelAlpha(mask, width, height, p) == AlphaByte(v)
    ensures v == 1.0 ==> PixelAlpha(mask, width, height, p) == 255
    ensures v == 0.0 ==> PixelAlpha(mask, width, height, p) == 0
  {
    GridRowColumn(p, width, height);
    AlphaWithinMaskRange(mask, width, height, p % width, p / width, v, v);
  }

  /** Position of byte c of pixel p in an RGBA buffer. */
  function Slot(p: int, c: int): int
  {
    4 * p + c
  }

  /** The alpha byte of every pixel, in row-major order. */
  function AlphaPlane(mask: MaskPlane, width: nat, height: nat): (a: seq<Byte>)
    ensures |a| == width * height
    ensures forall p :: 0 <= p < |a| ==> a[p] == PixelAlpha(mask, width, height, p)
  {
    seq(width * height, p requires 0 <= p < width * height => PixelAlpha(mask, width, height, p))
  }

  /** The compositing loops: rows, then columns; each pixel's alpha byte is overwritten,
      nothing else in the buffer changes. */
  method Composite(data: array<Byte>, width: nat, height: nat, mask: MaskPlane)
    requires data.Length == 4 * (width * height)
    modifies data
    ensures data[..] == Composited(old(data[..]), width, height, mask)
  {
    ghost var before := data[..];
    ghost var alphas := AlphaPlane(mask, width, height);
    var y := 0;
    while y < height
      invariant 0 <= y <= height
      invariant AlphaUpTo(data[..], before, alphas, y * width)
    {
      CompositeRow(data, width, height, mask, y, before, alphas);
      y := y + 1;
    }
    AlphaAll(data[..], before, width, height, mask, alphas);
  }

  /** The inner loop over the columns of row y. */
  method CompositeRow(data: array<Byte>, width: nat, height: nat, mask: MaskPlane, y: nat,
                      ghost before: seq<Byte>, ghost alphas: seq<Byte>)
    requires y < height && alphas == AlphaPlane(mask, width, height)
    requires AlphaUpTo(data[..], before, alphas, y * width)
    modifies data
    ensures AlphaUpTo(data[..], before, alphas, (y + 1) * width)
  {
    var x := 0;
    while x < width
      invariant 0 <= x <= width
      invariant AlphaUpTo(data[..], before, alphas, y * width + x)
    {
      WriteAlpha(data, width, height, mask, x, y, before, alphas);
      x := x + 1;
    }
    assert y * width + width == (y + 1) * width;
  }

  /** The loop body: the interpolated alpha of pixel (x, y) goes into byte pixelIdx + 3. */
  method WriteAlpha(data: array<Byte>, width: nat, height: nat, mask: MaskPlane, x: nat, y: nat,
                    ghost before: seq<Byte>, ghost alphas: seq<Byte>)
    requires x < width && y < height && alphas == AlphaPlane(mask, width, height)
    requires AlphaUpTo(data[..], before, alphas, y * width + x)
    modifies data
    ensures AlphaUpTo(data[..], before, alphas, y * width + x + 1)
  {
    var pixelIdx := (y * width + x) * 4;
    var alpha := AlphaByte(InterpolatedAlpha(mask, width, height, x, y));
    PixelAt(mask, width, height, x, y, alphas);
    AlphaNext(data[..], before, alphas, y * width + x);
    data[pixelIdx + 3] := alpha;
  }

  /** `s` is `original` with the alpha byte of each of the first `done` pixels replaced by
      that pixel's entry of `alphas`. */
  ghost predicate AlphaUpTo(s: seq<Byte>, original: seq<Byte>, alphas: seq<Byte>, done: int)
  {
    |s| == |original| == 4 * |alphas| &&
    forall p, c :: 0 <= p < |alphas| && 0 <= c < 4 ==>
      s[Slot(p, c)] == if c == 3 && p < done then alphas[p] else original[Slot(p, c)]
  }

  /** Pixel (x, y) is pixel y width + x of the row-major order, and its entry of the alpha
      plane is the interpolated alpha at (x, y). */
  lemma PixelAt(mask: MaskPlane, width: nat, height: nat, x: nat, y: nat, alphas: seq<Byte>)
    requires x < width && y < height && alphas == AlphaPlane(mask, width, height)
    ensures y * width + x < |alphas| && (y * width + x) * 4 + 3 == Slot(y * width + x, 3)
    ensures alphas[y * width + x] == AlphaByte(InterpolatedAlpha(mask, width, height, x, y))
  {
    PositionInGrid(x, y, width, height);
    RowColumn(x, y, width);
  }

  /** Writing pixel q's alpha at byte 4q + 3 extends the written prefix by one pixel. */
  lemma AlphaNext(s: seq<Byte>, original: seq<Byte>, alphas: seq<Byte>, q: nat)
    requires q < |alphas| && AlphaUpTo(s, original, alphas, q)
    ensures Slot(q, 3) < |s| && AlphaUpTo(s[Slot(q, 3) := alphas[q]], original, alphas, q + 1)
  {
    var t := s[Slot(q, 3) := alphas[q]];
    forall p, c | 0 <= p < |alphas| && 0 <= c < 4
      ensures t[Slot(p, c)] == if c == 3 && p < q + 1 then alphas[p] else original[Slot(p, c)]
    {
      if Slot(p, c) == Slot(q, 3) {
        assert p == q && c == 3;
      }
    }
  }

  /** Once every pixel's alpha is written the buffer is the composited image. */
  lemma AlphaAll(s: seq<Byte>, original: seq<Byte>, width: nat, height: nat, mask: MaskPlane, alphas: seq<Byte>)
    requires alphas == AlphaPlane(mask, width, height)
    requires AlphaUpTo(s, original, alphas, height * width)
    ensures s == Composited(original, width, height, mask)
  {
    forall j | 0 <= j < |s|
      ensures s[j] == Composited(original, width, height, mask)[j]
    {
      assert j == Slot(j / 4, j % 4);
    }
  }
}
