/** The mask refiner: an edge-preserving smoothing pass over the interior of the
    raw 320x320 mask, written into a fresh zero-filled buffer, followed by a
    sigmoid contrast curve applied to every cell of that buffer in place. */
module Refiner {
  import opened Base

  /** Cell i is off the one-cell border of the plane: column and row both in [1, 318]. */
  predicate Interior(i: int)
  {
    0 <= i < N && 1 <= i % W <= W - 2 && 1 <= i / W <= H - 2
  }

  /** Row-major position of column x, row y. */
  function Cell(x: int, y: int): int
  {
    y * W + x
  }

  /** The k-th cell (0 <= k < 9) of the 3x3 neighbourhood of interior cell (x, y), in the
      order the smoothing loop visits it: dy = k / 3 - 1 outer, dx = k % 3 - 1 inner. It is
      in bounds, and the middle one is the centre. */
  function NeighbourIndex(x: int, y: int, k: int): (j: int)
    requires 1 <= x <= W - 2 && 1 <= y <= H - 2 && 0 <= k < 9
    ensures 0 <= j < N
    ensures k == 4 ==> j == y * W + x
  {
    (y + k / 3 - 1) * W + (x + k % 3 - 1)
  }

  /** The nine raw mask values around interior cell (x, y), centre at position 4. */
  function Neighbours(mask: MaskPlane, x: int, y: int): (s: seq<real>)
    requires 1 <= x <= W - 2 && 1 <= y <= H - 2
    ensures |s| == 9 && s[4] == mask[y * W + x]
    ensures forall k :: 0 <= k < 9 ==> s[k] == mask[NeighbourIndex(x, y, k)]
  {
    seq(9, k requires 0 <= k < 9 => mask[NeighbourIndex(x, y, k)])
  }

  /** The weight of a neighbour: exp(-5 |n - centre|); positive, and 1 for the centre's own value. */
  function Weight(n: real, centre: real, exp: real -> real): (w: real)
    requires IsExp(exp)
    ensures w > 0.0
    ensures n == centre ==> w == 1.0
  {
    exp(-Abs(n - centre) * 5.0)
  }

  /** Sum of value times weight over s, accumulated left to right. */
  function WeightedSum(s: seq<real>, centre: real, exp: real -> real): real
    requires IsExp(exp)
    decreases |s|
  {
    if |s| == 0 then 0.0
    else WeightedSum(s[..|s| - 1], centre, exp) + s[|s| - 1] * Weight(s[|s| - 1], centre, exp)
  }

  /** Sum of the weights over s. Once the centre's own value is among them it is at least 1,
      so dividing by it is safe. */
  function TotalWeight(s: seq<real>, centre: real, exp: real -> real): (t: real)
    requires IsExp(exp)
    ensures t >= 0.0
    ensures centre in s ==> t >= 1.0
    decreases |s|
  {
    if |s| == 0 then 0.0
    else
      var prefix := s[..|s| - 1];
      assert centre in s && s[|s| - 1] != centre ==> centre in prefix by {
        if centre in s && s[|s| - 1] != centre {
          var k :| 0 <= k < |s| && s[k] == centre;
          assert prefix[k] == centre;
        }
      }
      TotalWeight(prefix, centre, exp) + Weight(s[|s| - 1], centre, exp)
  }

  /** Least element of a non-empty sequence. */
  function SeqMin(s: seq<real>): (m: real)
    requires |s| > 0
    ensures m in s && forall k :: 0 <= k < |s| ==> m <= s[k]
    decreases |s|
  {
    if |s| == 1 then s[0] else Min(s[0], SeqMin(s[1..]))
  }

  /** Greatest element of a non-empty sequence. */
  function SeqMax(s: seq<real>): (m: real)
    requires |s| > 0
    ensures m in s && forall k :: 0 <= k < |s| ==> s[k] <= m
    decreases |s|
  {
    if |s| == 1 then s[0] else Max(s[0], SeqMax(s[1..]))
  }

  /** With positive weights the weighted sum lies between lo and hi times the total weight. */
  lemma {:induction false} WeightedSumBounds(s: seq<real>, centre: real, exp: real -> real, lo: real, hi: real,
                                             sum: real, total: real)
    requires IsExp(exp)
    requires forall k :: 0 <= k < |s| ==> lo <= s[k] <= hi
    requires sum == WeightedSum(s, centre, exp) && total == TotalWeight(s, centre, exp)
    ensures lo * total <= sum <= hi * total
    decreases |s|
  {
    if |s| > 0 {
      var prefix := s[..|s| - 1];
      var v := s[|s| - 1];
      var w := Weight(v, centre, exp);
      var prefixSum, prefixTotal := WeightedSum(prefix, centre, exp), TotalWeight(prefix, centre, exp);
      assert sum == prefixSum + v * w;
      assert total == prefixTotal + w;
      WeightedSumBounds(prefix, centre, exp, lo, hi, prefixSum, prefixTotal);
      StepBounds(lo, hi, prefixSum, prefixTotal, v, w, sum, total);
    }
  }

  /** One accumulation step keeps the weighted sum between lo and hi times the total weight. */
  lemma StepBounds(lo: real, hi: real, sum: real, total: real, v: real, w: real, sum': real, total': real)
    requires lo * total <= sum <= hi * total
    requires lo <= v <= hi && w > 0.0
    requires sum' == sum + v * w && total' == total + w
    ensures lo * total' <= sum' <= hi * total'
  {
    ScaleBetween(lo, v, hi, w);
    assert lo * total' == lo * total + lo * w;
    assert hi * total' == hi * total + hi * w;
  }

  lemma ScaleBetween(lo: real, v: real, hi: real, w: real)
    requires lo <= v <= hi && w > 0.0
    ensures lo * w <= v * w <= hi * w
  {
    assert (v - lo) * w >= 0.0;
    assert (hi - v) * w >= 0.0;
  }

  lemma QuotientBetween(a: real, t: real, lo: real, hi: real)
    requires t > 0.0 && lo * t <= a <= hi * t
    ensures lo <= a / t <= hi
  {
    var q := a / t;
    assert a == q * t;
  }

  /** The edge-preserving average of a neighbourhood: a positively weighted mean, so it lies
      between the least and the greatest neighbour. */
  function EdgeWeightedMean(s: seq<real>, centre: real, exp: real -> real): (m: real)
    requires IsExp(exp) && centre in s
    ensures SeqMin(s) <= m <= SeqMax(s)
  {
    var sum, total := WeightedSum(s, centre, exp), TotalWeight(s, centre, exp);
    MeanBounds(s, centre, exp, SeqMin(s), SeqMax(s), sum, total);
    sum / total
  }

  /** Bounds lo and hi on the values bound their weighted mean sum / total. */
  lemma MeanBounds(s: seq<real>, centre: real, exp: real -> real, lo: real, hi: real, sum: real, total: real)
    requires IsExp(exp) && centre in s
    requires forall k :: 0 <= k < |s| ==> lo <= s[k] <= hi
    requires sum == WeightedSum(s, centre, exp) && total == TotalWeight(s, centre, exp)
    ensures total > 0.0
    ensures lo <= sum / total <= hi
  {
    WeightedSumBounds(s, centre, exp, lo, hi, sum, total);
    QuotientBetween(sum, total, lo, hi);
  }

  /** The value the smoothing pass leaves in cell i: the edge-weighted mean of its raw
      neighbourhood for an interior cell, and the buffer's initial 0 on the border. */
  function SmoothedCell(mask: MaskPlane, i: int, exp: real -> real): (v: real)
    requires 0 <= i < N && IsExp(exp)
    ensures !Interior(i) ==> v == 0.0
  {
    if Interior(i) then
      assert i == (i / W) * W + i % W;
      EdgeWeightedMean(Neighbours(mask, i % W, i / W), mask[i], exp)
    else 0.0
  }

  /** The buffer after the smoothing pass. */
  function Smoothed(mask: MaskPlane, exp: real -> real): (s: MaskPlane)
    requires IsExp(exp)
    ensures forall i :: 0 <= i < N ==> s[i] == SmoothedCell(mask, i, exp)
  {
    seq(N, i requires 0 <= i < N => SmoothedCell(mask, i, exp))
  }

  /** The contrast curve 1 / (1 + exp(-12 (v - 0.5))): strictly between 0 and 1, with 0.5 fixed. */
  function Sigmoid(v: real, exp: real -> real): (r: real)
    requires IsExp(exp)
    ensures 0.0 < r < 1.0
    ensures v == 0.5 ==> r == 0.5
  {
    var e := exp(-12.0 * (v - 0.5));
    assert 1.0 + e > 1.0;
    1.0 / (1.0 + e)
  }

  /** The refined mask: smoothing then the sigmoid. Every value lies strictly in (0, 1), and
      every border cell holds Sigmoid(0) whatever the raw mask was. */
  function Refined(mask: MaskPlane, exp: real -> real): (r: MaskPlane)
    requires IsExp(exp)
    ensures forall i :: 0 <= i < N ==> 0.0 < r[i] < 1.0
    ensures forall i :: 0 <= i < N && !Interior(i) ==> r[i] == Sigmoid(0.0, exp)
    ensures forall i :: 0 <= i < N ==> r[i] == Sigmoid(Smoothed(mask, exp)[i], exp)
  {
    seq(N, i requires 0 <= i < N => Sigmoid(Smoothed(mask, exp)[i], exp))
  }

  /** A smoothed interior cell depends on its nine raw neighbours only. */
  lemma SmoothingIsLocal(m1: MaskPlane, m2: MaskPlane, i: int, exp: real -> real)
    requires IsExp(exp) && Interior(i)
    requires forall k :: 0 <= k < 9 ==>
               m1[NeighbourIndex(i % W, i / W, k)] == m2[NeighbourIndex(i % W, i / W, k)]
    ensures SmoothedCell(m1, i, exp) == SmoothedCell(m2, i, exp)
  {
    assert Neighbours(m1, i % W, i / W) == Neighbours(m2, i % W, i / W);
    assert i == (i / W) * W + i % W;
  }

  /** Raw mask values in [lo, hi] (for a probability mask, [0, 1]) stay in [lo, hi] on
      the interior after smoothing. */
  lemma SmoothingKeepsRange(mask: MaskPlane, exp: real -> real, lo: real, hi: real)
    requires IsExp(exp)
    requires forall i :: 0 <= i < N ==> lo <= mask[i] <= hi
    ensures forall i :: 0 <= i < N && Interior(i) ==> lo <= Smoothed(mask, exp)[i] <= hi
  {
    forall i | 0 <= i < N && Interior(i)
      ensures lo <= Smoothed(mask, exp)[i] <= hi
    {
      var s := Neighbours(mask, i % W, i / W);
      var a, b := SeqMin(s), SeqMax(s);
      assert i == (i / W) * W + i % W;
      assert a <= SmoothedCell(mask, i, exp) <= b;
      var ka :| 0 <= ka < 9 && s[ka] == a;
      var kb :| 0 <= kb < 9 && s[kb] == b;
      assert lo <= mask[NeighbourIndex(i % W, i / W, ka)];
      assert mask[NeighbourIndex(i % W, i / W, kb)] <= hi;
    }
  }

  /** A uniform raw mask of value v is refined to Sigmoid(v) on the interior and to
      Sigmoid(0) on the border. */
  lemma UniformMask(mask: MaskPlane, v: real, exp: real -> real)
    requires IsExp(exp)
    requires forall i :: 0 <= i < N ==> mask[i] == v
    ensures forall i :: 0 <= i < N && Interior(i) ==> Refined(mask, exp)[i] == Sigmoid(v, exp)
    ensures forall i :: 0 <= i < N && !Interior(i) ==> Refined(mask, exp)[i] == Sigmoid(0.0, exp)
  {
    SmoothingKeepsRange(mask, exp, v, v);
  }

  /** An all-0.5 raw mask stays 0.5 on the whole interior. */
  lemma MidpointMask(mask: MaskPlane, exp: real -> real)
    requires IsExp(exp)
    requires forall i :: 0 <= i < N ==> mask[i] == 0.5
    ensures forall i :: 0 <= i < N && Interior(i) ==> Refined(mask, exp)[i] == 0.5
  {
    UniformMask(mask, 0.5, exp);
  }

  /** The two nested neighbourhood loops of the smoothing pass, over dy then dx in -1..1. */
  method CollectNeighbours(mask: MaskPlane, x: int, y: int) returns (nb: seq<real>)
    requires 1 <= x <= W - 2 && 1 <= y <= H - 2
    ensures nb == Neighbours(mask, x, y)
  {
    nb := [];
    var dy := -1;
    while dy <= 1
      invariant -1 <= dy <= 2
      invariant |nb| == 3 * (dy + 1)
      invariant forall k :: 0 <= k < |nb| ==> nb[k] == mask[NeighbourIndex(x, y, k)]
    {
      var dx := -1;
      while dx <= 1
        invariant -1 <= dx <= 2
        invariant |nb| == 3 * (dy + 1) + (dx + 1)
        invariant forall k :: 0 <= k < |nb| ==> nb[k] == mask[NeighbourIndex(x, y, k)]
      {
        assert NeighbourIndex(x, y, |nb|) == (y + dy) * W + (x + dx);
        nb := nb + [mask[(y + dy) * W + (x + dx)]];
        dx := dx + 1;
      }
      dy := dy + 1;
    }
  }

  /** The accumulation over the neighbours: weighted sum and total weight, then their quotient. */
  method AccumulateMean(s: seq<real>, centre: real, exp: real -> real) returns (m: real)
    requires IsExp(exp) && centre in s
    ensures m == EdgeWeightedMean(s, centre, exp)
  {
    var weightedSum := 0.0;
    var totalWeight := 0.0;
    var i := 0;
    while i < |s|
      invariant 0 <= i <= |s|
      invariant weightedSum == WeightedSum(s[..i], centre, exp)
      invariant totalWeight == TotalWeight(s[..i], centre, exp)
    {
      var weight := exp(-Abs(s[i] - centre) * 5.0);
      weightedSum := weightedSum + s[i] * weight;
      totalWeight := totalWeight + weight;
      assert s[..i + 1][..i] == s[..i];
      i := i + 1;
    }
    assert s[..|s|] == s;
    m := weightedSum / totalWeight;
  }

  /** Interior cell (x, y) of the smoothed buffer is the edge-weighted mean of its raw
      neighbourhood. */
  lemma SmoothedAt(mask: MaskPlane, exp: real -> real, x: int, y: int)
    requires IsExp(exp) && 1 <= x <= W - 2 && 1 <= y <= H - 2
    ensures 0 <= Cell(x, y) < N && Interior(Cell(x, y))
    ensures Smoothed(mask, exp)[Cell(x, y)] == EdgeWeightedMean(Neighbours(mask, x, y), mask[Cell(x, y)], exp)
  {
    RowColumn(x, y, W);
  }

  /** No other cell of the plane shares the position of cell (x, y). */
  lemma CellsAreDistinct(x: int, y: int)
    requires 0 <= x < W && 0 <= y < H
    ensures forall c, r :: 0 <= c < W && 0 <= r < H && Cell(c, r) == Cell(x, y) ==> c == x && r == y
  {
    forall c, r | 0 <= c < W && 0 <= r < H && Cell(c, r) == Cell(x, y)
      ensures c == x && r == y
    {
      RowColumn(c, r, W);
      RowColumn(x, y, W);
    }
  }

  /** The smoothing pass: every interior cell of a fresh zero-filled buffer receives the
      edge-weighted mean of its raw neighbourhood; only the raw mask is read. */
  method SmoothMask(mask: MaskPlane, exp: real -> real) returns (pm: array<real>)
    requires IsExp(exp)
    ensures fresh(pm)
    ensures pm[..] == Smoothed(mask, exp)
  {
    pm := new real[N](_ => 0.0);
    ghost var target := Smoothed(mask, exp);
    var y := 1;
    while y < H - 1
      invariant 1 <= y <= H - 1 && pm.Length == N
      invariant FilledUpTo(pm[..], target, y, 1)
    {
      var x := 1;
      while x < W - 1
        invariant 1 <= x <= W - 1
        invariant FilledUpTo(pm[..], target, y, x)
      {
        var idx := y * W + x;
        var v := SmoothCell(mask, exp, x, y);
        FillNext(pm[..], target, x, y, v);
        pm[idx] := v;
        x := x + 1;
      }
      y := y + 1;
    }
    FilledAll(pm[..], target);
  }

  /** The body of the smoothing loops for interior cell (x, y): gather the neighbourhood,
      then take its edge-weighted mean. */
  method SmoothCell(mask: MaskPlane, exp: real -> real, x: int, y: int) returns (v: real)
    requires IsExp(exp) && 1 <= x <= W - 2 && 1 <= y <= H - 2
    ensures 0 <= Cell(x, y) < N
    ensures v == Smoothed(mask, exp)[Cell(x, y)]
  {
    var idx := y * W + x;
    var center := mask[idx];
    var neighbors := CollectNeighbours(mask, x, y);
    v := AccumulateMean(neighbors, center, exp);
    SmoothedAt(mask, exp, x, y);
  }

  /** `s` holds `target` on the interior cells the smoothing loops have visited before
      (x, y) in row-major order, and 0 everywhere else. */
  ghost predicate FilledUpTo(s: seq<real>, target: seq<real>, y: int, x: int)
  {
    |s| == N && |target| == N &&
    forall c, r :: 0 <= c < W && 0 <= r < H ==>
      s[Cell(c, r)] == if 1 <= c <= W - 2 && (1 <= r < y || (r == y && 1 <= c < x)) then target[Cell(c, r)] else 0.0
  }

  /** Writing target's value into cell (x, y) advances the loops by one cell. */
  lemma FillNext(s: seq<real>, target: seq<real>, x: int, y: int, v: real)
    requires 1 <= x <= W - 2 && 1 <= y <= H - 2
    requires FilledUpTo(s, target, y, x) && v == target[Cell(x, y)]
    ensures 0 <= Cell(x, y) < N
    ensures FilledUpTo(s[Cell(x, y) := v], target, y, x + 1)
    ensures x + 1 == W - 1 ==> FilledUpTo(s[Cell(x, y) := v], target, y + 1, 1)
  {
    CellsAreDistinct(x, y);
  }

  /** Once every row is done, the buffer is the target plane minus its border, which is 0. */
  lemma FilledAll(s: seq<real>, target: MaskPlane)
    requires FilledUpTo(s, target, H - 1, 1)
    requires forall i :: 0 <= i < N && !Interior(i) ==> target[i] == 0.0
    ensures s == target
  {
    forall i | 0 <= i < N
      ensures s[i] == target[i]
    {
      RowColumn(i % W, i / W, W);
      assert i == Cell(i % W, i / W);
    }
  }

  /** The sigmoid pass, in place over the whole buffer, border included. */
  method SigmoidPass(pm: array<real>, exp: real -> real)
    requires IsExp(exp) && pm.Length == N
    modifies pm
    ensures forall i :: 0 <= i < N ==> pm[i] == Sigmoid(old(pm[i]), exp)
  {
    var i := 0;
    while i < N
      invariant 0 <= i <= N
      invariant forall k :: 0 <= k < i ==> pm[k] == Sigmoid(old(pm[k]), exp)
      invariant forall k :: i <= k < N ==> pm[k] == old(pm[k])
    {
      var value := pm[i];
      pm[i] := 1.0 / (1.0 + exp(-12.0 * (value - 0.5)));
      i := i + 1;
    }
  }
}
