/** Shared definitions of the background-removal pipeline: pixel bytes, the
    fixed model resolution, the exponential the math relies on, and the
    arithmetic helpers the stages share. */
module Base {

  /** One byte of a canvas pixel buffer (an element of a Uint8ClampedArray). */
  type Byte = b: int | 0 <= b < 256

  /** Width and height of the model's input and output planes. */
  const W: nat := 320
  const H: nat := 320

  /** Number of cells in one 320x320 plane. */
  const N: nat := W * H

  /** A one-channel plane at model resolution, row-major: cell (x, y) is at y * W + x.
      The segmentation model's output tensor has this shape. */
  type MaskPlane = s: seq<real> | |s| == N witness seq(N, _ => 0.0)

  datatype Option<T> = None | Some(value: T)

  datatype Result<T, E> = Success(value: T) | Failure(error: E)

  /** What the pipeline needs of Math.exp: it is positive everywhere and exp(0) = 1.
      Nothing else about it is assumed. */
  ghost predicate IsExp(exp: real -> real)
  {
    exp(0.0) == 1.0 && forall x: real :: exp(x) > 0.0
  }

  function Min(a: real, b: real): real { if a <= b then a else b }

  function Max(a: real, b: real): real { if a >= b then a else b }

  function Abs(a: real): real { if a >= 0.0 then a else -a }

  /** JavaScript's Math.round on reals: rounds half-way cases up. */
  function Round(v: real): (r: int)
    ensures v - 0.5 < r as real <= v + 0.5
  {
    (v + 0.5).Floor
  }

  /** Row and column of a row-major position are recovered by division. */
  lemma RowColumn(x: int, y: int, w: int)
    requires 0 <= x < w && 0 <= y
    ensures (y * w + x) / w == y && (y * w + x) % w == x
  {
    var p := y * w + x;
    var q, r := p / w, p % w;
    assert p == q * w + r && 0 <= r < w;
    assert (q - y) * w == x - r;
    if q > y {
      MulAtLeast(q - y, w);
      assert false;
    } else if q < y {
      MulAtLeast(y - q, w);
      assert false;
    }
  }

  /** A row-major position of a pixel inside a width x height grid is below width * height. */
  lemma PositionInGrid(x: int, y: int, w: int, h: int)
    requires 0 <= x < w && 0 <= y < h
    ensures 0 <= y * w + x < w * h
  {
    assert y * w + x < (y + 1) * w;
    assert (h - (y + 1)) * w >= 0 by { MulNonNegative(h - (y + 1), w); }
  }

  /** A position below width * height belongs to a row below height. */
  lemma GridRowColumn(p: int, w: int, h: int)
    requires 0 <= p < w * h && 0 <= w && 0 <= h
    ensures w > 0 && 0 <= p % w < w && 0 <= p / w < h && p == (p / w) * w + p % w
  {
    if w == 0 {
      assert false;
    }
    var y := p / w;
    assert p == y * w + p % w;
    if y >= h {
      MulNonNegative(y - h, w);
      assert false;
    }
  }

  lemma MulAtLeast(a: int, b: int)
    requires a >= 1 && b >= 0
    ensures a * b >= b
  {
    assert a * b == (a - 1) * b + b;
    MulNonNegative(a - 1, b);
  }

  lemma MulNonNegative(a: int, b: int)
    requires a >= 0 && b >= 0
    ensures a * b >= 0
  {
  }
}
