/** The tensor encoder: the 320x320 RGBA canvas pixels become the model's
    [1, 3, 320, 320] input, channel-planar (all red values, then all green,
    then all blue), each value normalised, contrast-stretched and clamped. */
module Encoder {
  import opened Base

  /** A colour byte scaled to [0, 1], stretched by v * 1.05 - 0.025 and clamped to [0, 1]. */
  function Normalize(b: Byte): (v: real)
    ensures 0.0 <= v <= 1.0
  {
    Min(Max((b as real / 255.0) * 1.05 - 0.025, 0.0), 1.0)
  }

  /** The clamp cuts off exactly the bytes 0..6 (to 0) and 249..255 (to 1);
      in between the stretch is applied unchanged. */
  lemma NormalizeRegions(b: Byte)
    ensures b <= 6 ==> Normalize(b) == 0.0
    ensures 7 <= b <= 248 ==> Normalize(b) == (b as real / 255.0) * 1.05 - 0.025
    ensures b >= 249 ==> Normalize(b) == 1.0
  {
    var lin := (b as real / 255.0) * 1.05 - 0.025;
    assert lin == (b as real * 1.05 - 6.375) / 255.0;
  }

  /** Larger bytes never give smaller tensor values. */
  lemma NormalizeMonotonic(a: Byte, b: Byte)
    requires a <= b
    ensures Normalize(a) <= Normalize(b)
  {
    assert (a as real / 255.0) * 1.05 <= (b as real / 255.0) * 1.05;
  }

  /** Channel c (0 red, 1 green, 2 blue) of every pixel of the canvas, normalised. */
  function Plane(rgba: seq<Byte>, c: nat): (p: seq<real>)
    requires |rgba| == 4 * N && c < 3
    ensures |p| == N
    ensures forall i :: 0 <= i < N ==> p[i] == Normalize(rgba[4 * i + c])
  {
    seq(N, i requires 0 <= i < N => Normalize(rgba[4 * i + c]))
  }

  /** The model input for a canvas: the red plane, then the green plane, then the blue
      plane; red of pixel i is at i, green at i + N and blue at i + 2N, and every value
      lies in [0, 1]. */
  function Encoded(rgba: seq<Byte>): (t: seq<real>)
    requires |rgba| == 4 * N
    ensures |t| == 3 * N
    ensures forall i :: 0 <= i < N ==>
              t[i] == Normalize(rgba[4 * i]) &&
              t[N + i] == Normalize(rgba[4 * i + 1]) &&
              t[2 * N + i] == Normalize(rgba[4 * i + 2])
    ensures forall j :: 0 <= j < |t| ==> 0.0 <= t[j] <= 1.0
  {
    Plane(rgba, 0) + Plane(rgba, 1) + Plane(rgba, 2)
  }

  /** The encoding loop: one pass over the pixels, writing the three channel values of
      pixel i into a fresh zero-filled buffer of 3 * W * H floats. */
  method EncodeTensor(rgba: seq<Byte>) returns (t: array<real>)
    requires |rgba| == 4 * N
    ensures fresh(t)
    ensures t[..] == Encoded(rgba)
  {
    t := new real[3 * N](_ => 0.0);
    var i := 0;
    while i < N
      invariant 0 <= i <= N
      invariant EncodedUpTo(t[..], rgba, i)
    {
      var r := rgba[i * 4] as real / 255.0;
      var g := rgba[i * 4 + 1] as real / 255.0;
      var b := rgba[i * 4 + 2] as real / 255.0;
      var red := Min(Max(r * 1.05 - 0.025, 0.0), 1.0);
      var green := Min(Max(g * 1.05 - 0.025, 0.0), 1.0);
      var blue := Min(Max(b * 1.05 - 0.025, 0.0), 1.0);
      assert red == Normalize(rgba[4 * i]) && green == Normalize(rgba[4 * i + 1]) && blue == Normalize(rgba[4 * i + 2]);
      ghost var before := t[..];
      t[i] := red;
      t[i + N] := green;
      t[i + 2 * N] := blue;
      assert t[..] == before[i := red][i + N := green][i + 2 * N := blue];
      EncodeStep(before, rgba, i, red, green, blue);
      i := i + 1;
    }
    PlanesMakeEncoding(rgba, t[..]);
  }

  /** `s` holds the three channel values of every pixel before i. */
  ghost predicate EncodedUpTo(s: seq<real>, rgba: seq<Byte>, i: int)
    requires |rgba| == 4 * N
  {
    |s| == 3 * N && 0 <= i <= N &&
    (forall k :: 0 <= k < i ==> s[k] == Normalize(rgba[4 * k])) &&
    (forall k :: 0 <= k < i ==> s[N + k] == Normalize(rgba[4 * k + 1])) &&
    (forall k :: 0 <= k < i ==> s[2 * N + k] == Normalize(rgba[4 * k + 2]))
  }

  /** Writing pixel i's three values extends the encoded prefix by one pixel. */
  lemma EncodeStep(s: seq<real>, rgba: seq<Byte>, i: int, red: real, green: real, blue: real)
    requires |rgba| == 4 * N && 0 <= i < N && EncodedUpTo(s, rgba, i)
    requires red == Normalize(rgba[4 * i]) && green == Normalize(rgba[4 * i + 1]) && blue == Normalize(rgba[4 * i + 2])
    ensures EncodedUpTo(s[i := red][i + N := green][i + 2 * N := blue], rgba, i + 1)
  {
  }

  /** A buffer of 3N values holding channel c of pixel i at c * N + i is the encoding. */
  lemma PlanesMakeEncoding(rgba: seq<Byte>, t: seq<real>)
    requires |rgba| == 4 * N && |t| == 3 * N
    requires forall k :: 0 <= k < N ==> t[k] == Normalize(rgba[4 * k])
    requires forall k :: 0 <= k < N ==> t[N + k] == Normalize(rgba[4 * k + 1])
    requires forall k :: 0 <= k < N ==> t[2 * N + k] == Normalize(rgba[4 * k + 2])
    ensures t == Encoded(rgba)
  {
    var e := Encoded(rgba);
    forall j | 0 <= j < 3 * N
      ensures t[j] == e[j]
    {
      if j < N {
      } else if j < 2 * N {
        assert t[N + (j - N)] == e[N + (j - N)];
      } else {
        assert t[2 * N + (j - 2 * N)] == e[2 * N + (j - 2 * N)];
      }
    }
  }
}
