/** Elkan's accelerated k-means (common/quantizer/annkmeans.cpp).

    Distances are an arbitrary metric over vectors of reals. The accelerated loop keeps, for every
    sample, a lower bound on its distance to each centre and an upper bound on its distance to its
    own centre, and skips distance computations the bounds make pointless. The main results: the
    skipping never changes an answer, so every run is a run of plain Lloyd iteration, and leaving
    by the no-change break leaves a Lloyd fixpoint.
 */
module Elkan {
  import opened Vectors

  type Distance = (Vector, Vector) -> real

  // ----- Metrics -----

  /** Names a triangle for the quantifier below to be instantiated on. */
  ghost predicate Corners(x: Vector, y: Vector, z: Vector) { true }

  ghost predicate IsMetric(d: Distance) {
    && (forall x, y :: d(x, y) >= 0.0)
    && (forall x, y {:trigger Corners(x, x, y)} :: Corners(x, x, y) ==> d(x, y) == d(y, x))
    && (forall x, y, z {:trigger Corners(x, y, z)} :: Corners(x, y, z) ==> d(x, z) <= d(x, y) + d(y, z))
  }

  lemma Symmetric(d: Distance, x: Vector, y: Vector)
    requires IsMetric(d)
    ensures d(x, y) == d(y, x)
  {
    assert Corners(x, x, y);
  }

  lemma Triangle(d: Distance, x: Vector, y: Vector, z: Vector)
    requires IsMetric(d)
    ensures d(x, z) <= d(x, y) + d(y, z)
  {
    assert Corners(x, y, z);
  }

  // ----- Nearest centres and bounds -----

  /** No centre is closer to `x` than centre `a`: what an exhaustive scan would establish. */
  ghost predicate Nearest(d: Distance, x: Vector, centers: seq<Vector>, a: int) {
    0 <= a < |centers| && forall k :: 0 <= k < |centers| ==> d(x, centers[a]) <= d(x, centers[k])
  }

  ghost predicate Bounded(d: Distance, x: Vector, centers: seq<Vector>, a: int, row: seq<real>, upper: real) {
    && 0 <= a < |centers| == |row|
    && (forall k :: 0 <= k < |row| ==> row[k] <= d(x, centers[k]))
    && d(x, centers[a]) <= upper
  }

  /** The halved centre-to-centre distances, off the diagonal. */
  ghost predicate HalfDistances(d: Distance, centers: seq<Vector>, half: seq<seq<real>>) {
    && |half| == |centers|
    && (forall j :: 0 <= j < |centers| ==> |half[j]| == |centers|)
    && forall j, k :: 0 <= j < |centers| && 0 <= k < |centers| && j != k ==>
         2.0 * half[j][k] == d(centers[j], centers[k])
  }

  /** `s[j]` is a lower bound of row `j` of the halved distances, attained unless it is the cap. */
  ghost predicate RowMinimum(row: seq<real>, j: nat, cap: real, s: real) {
    && (forall k :: 0 <= k < |row| && k != j ==> s <= row[k])
    && (s == cap || exists k :: 0 <= k < |row| && k != j && s == row[k])
  }

  /** A centre at least twice as far from the assigned centre as the sample is cannot be closer. */
  lemma HalfDistancePrunes(d: Distance, x: Vector, c: Vector, other: Vector, upper: real, half: real)
    requires IsMetric(d) && d(x, c) <= upper <= half && 2.0 * half == d(c, other)
    ensures d(x, c) <= d(x, other)
  {
    Triangle(d, c, x, other);
    Symmetric(d, c, x);
  }

  /** The state of one sample's pass after looking at the first `k` centres. */
  ghost predicate Scanning(d: Distance, x: Vector, centers: seq<Vector>, a0: nat, k: nat,
                           a: nat, row: seq<real>, upper: real, stale: bool, changed: bool)
  {
    && a0 < |centers| && Bounded(d, x, centers, a, row, upper)
    && (forall i :: 0 <= i < k <= |centers| ==> d(x, centers[a]) <= d(x, centers[i]))
    && d(x, centers[a]) <= d(x, centers[a0])
    && (!stale ==> upper == d(x, centers[a]))
    && (changed ==> d(x, centers[a]) < d(x, centers[a0]))
    && (!changed ==> a == a0)
  }

  lemma ScanPrunes(d: Distance, x: Vector, centers: seq<Vector>, a0: nat, k: nat,
                   a: nat, row: seq<real>, upper: real, stale: bool, changed: bool, half: seq<seq<real>>)
    requires IsMetric(d) && HalfDistances(d, centers, half) && k < |centers|
    requires Scanning(d, x, centers, a0, k, a, row, upper, stale, changed)
    requires k == a || upper <= row[k] || upper <= half[a][k]
    ensures Scanning(d, x, centers, a0, k + 1, a, row, upper, stale, changed)
  {
    if k != a && upper <= half[a][k] {
      HalfDistancePrunes(d, x, centers[a], centers[k], upper, half[a][k]);
    }
  }

  /** The centres measured in one sample's pass: none twice, none that the lower bound kept from the start ruled
      out, and just theirs are the lower bounds that are exact from then on. */
  ghost predicate Measured(d: Distance, x: Vector, centers: seq<Vector>, a0: nat, row0: seq<real>, upper0: real,
                           row: seq<real>, measured: seq<nat>)
  {
    && |row| == |row0| == |centers|
    && (forall i, j :: 0 <= i < j < |measured| ==> measured[i] != measured[j])
    && (forall i :: i in measured ==> i < |centers| && row[i] == d(x, centers[i]) && (i != a0 ==> row0[i] < upper0))
    && (forall i: nat :: i < |centers| && i !in measured ==> row[i] == row0[i])
  }

  /** Nothing past centre `k` is measured yet, except for the one the sample came with. */
  ghost predicate MeasuredUpTo(d: Distance, x: Vector, centers: seq<Vector>, a0: nat, row0: seq<real>, upper0: real,
                               row: seq<real>, measured: seq<nat>, k: nat, a: nat, upper: real, stale: bool)
  {
    && Measured(d, x, centers, a0, row0, upper0, row, measured) && upper <= upper0
    && (forall i :: i in measured ==> i < k || i == a0) && (stale ==> measured == [] && a == a0)
  }

  lemma MeasureOwn(d: Distance, x: Vector, centers: seq<Vector>, a0: nat, row0: seq<real>, upper0: real,
                   row: seq<real>, k: nat, upper: real)
    requires a0 < |centers| && MeasuredUpTo(d, x, centers, a0, row0, upper0, row, [], k, a0, upper, true)
    requires d(x, centers[a0]) <= upper
    ensures MeasuredUpTo(d, x, centers, a0, row0, upper0, row[a0 := d(x, centers[a0])], [a0], k, a0,
                         d(x, centers[a0]), false)
  {
  }

  /** A centre whose bound is below the upper bound has not been measured. */
  lemma NotMeasured(d: Distance, x: Vector, centers: seq<Vector>, a0: nat, row0: seq<real>, upper0: real,
                    row: seq<real>, measured: seq<nat>, k: nat, a: nat, upper: real, stale: bool)
    requires a0 < |centers| && a < |centers| && k < |centers| && d(x, centers[a]) <= d(x, centers[a0])
    requires MeasuredUpTo(d, x, centers, a0, row0, upper0, row, measured, k, a, upper, stale)
    requires (!stale ==> upper == d(x, centers[a])) && row[k] < upper
    ensures k !in measured && row0[k] < upper0
  {
  }

  lemma MeasureOther(d: Distance, x: Vector, centers: seq<Vector>, a0: nat, row0: seq<real>, upper0: real,
                     row: seq<real>, measured: seq<nat>, k: nat, a: nat, upper: real)
    requires MeasuredUpTo(d, x, centers, a0, row0, upper0, row, measured, k, a, upper, false)
    requires k < |centers| && k !in measured && row0[k] < upper0
    ensures MeasuredUpTo(d, x, centers, a0, row0, upper0, row[k := d(x, centers[k])], measured + [k], k + 1, a, upper,
                         false)
  {
  }

  /** A sample's pass is over: bounds hold, its centre is a nearest one, and a move was to a closer one. */
  ghost predicate Settled(d: Distance, x: Vector, centers: seq<Vector>, a0: int, a: int, row: seq<real>, upper: real) {
    && Bounded(d, x, centers, a, row, upper) && Nearest(d, x, centers, a)
    && 0 <= a0 < |centers| && (a != a0 ==> d(x, centers[a]) < d(x, centers[a0]))
  }

  /** The inner loop of the combined steps 2 and 3 for one sample. `stale` is the source's `rj`: the
      upper bound may not be exact any more. */
  method PruneSample(d: Distance, x: Vector, centers: seq<Vector>, half: seq<seq<real>>, s: seq<real>, ghost cap: real,
                     a0: nat, row0: seq<real>, upper0: real, stale0: bool)
    returns (a: nat, row: seq<real>, upper: real, changed: bool, ghost measured: seq<nat>)
    requires IsMetric(d) && HalfDistances(d, centers, half) && |s| == |centers|
    requires Bounded(d, x, centers, a0, row0, upper0) && (!stale0 ==> upper0 == d(x, centers[a0]))
    requires RowMinimum(half[a0], a0, cap, s[a0])
    ensures Settled(d, x, centers, a0, a, row, upper) && (changed <==> a != a0)
    ensures Measured(d, x, centers, a0, row0, upper0, row, measured) && (measured != [] ==> s[a0] < upper0)
  {
    a, row, upper, changed, measured := a0, row0, upper0, false, [];
    if upper <= s[a] {
      forall k | 0 <= k < |centers| ensures d(x, centers[a]) <= d(x, centers[k]) {
        if k != a {
          HalfDistancePrunes(d, x, centers[a], centers[k], upper, half[a][k]);
        }
      }
      return;
    }
    var stale := stale0;
    var k := 0;
    while k < |centers|
      invariant k <= |centers| && Scanning(d, x, centers, a0, k, a, row, upper, stale, changed)
      invariant MeasuredUpTo(d, x, centers, a0, row0, upper0, row, measured, k, a, upper, stale)
    {
      if k == a || upper <= row[k] || upper <= half[a][k] {
        ScanPrunes(d, x, centers, a0, k, a, row, upper, stale, changed, half);
      } else {
        NotMeasured(d, x, centers, a0, row0, upper0, row, measured, k, a, upper, stale);
        var own := upper;
        if stale {
          MeasureOwn(d, x, centers, a0, row0, upper0, row, k, upper);
          measured := [a];
          own := d(x, centers[a]);
          row := row[a := own];
          upper := own;
          stale := false;
        }
        if own > row[k] || own > half[a][k] {
          var other := d(x, centers[k]);
          MeasureOther(d, x, centers, a0, row0, upper0, row, measured, k, a, upper);
          measured := measured + [k];
          row := row[k := other];
          if other < own {
            a, upper, changed := k, other, true;
          }
        } else {
          ScanPrunes(d, x, centers, a0, k, a, row, upper, stale, changed, half);
        }
      }
      k := k + 1;
    }
  }

  // ----- Moving the centres -----

  lemma LowerBoundMoves(d: Distance, x: Vector, c: Vector, c': Vector, lower: real)
    requires IsMetric(d) && lower <= d(x, c)
    ensures lower - d(c, c') <= d(x, c')
  {
    Triangle(d, x, c', c);
    Symmetric(d, c', c);
  }

  /** Steps 5 and 6 for one sample: the bounds survive any replacement of the centres. */
  method MoveBounds(d: Distance, ghost x: Vector, ghost centers: seq<Vector>, ghost centers': seq<Vector>,
                    moved: seq<real>, a: nat, row0: seq<real>, upper0: real)
    returns (row: seq<real>, upper: real)
    requires IsMetric(d) && Bounded(d, x, centers, a, row0, upper0)
    requires |centers'| == |moved| == |centers|
    requires forall k :: 0 <= k < |centers| ==> moved[k] == d(centers[k], centers'[k])
    ensures Bounded(d, x, centers', a, row, upper)
    ensures upper == upper0 + moved[a]
    ensures forall k :: 0 <= k < |row| ==> row[k] == if row0[k] < moved[k] then 0.0 else row0[k] - moved[k]
  {
    row := row0;
    var k := 0;
    while k < |row0|
      invariant k <= |row| == |row0|
      invariant forall i :: 0 <= i < k ==> row[i] == if row0[i] < moved[i] then 0.0 else row0[i] - moved[i]
      invariant forall i :: 0 <= i < k ==> row[i] <= d(x, centers'[i])
      invariant forall i :: k <= i < |row| ==> row[i] == row0[i]
    {
      var lower := row[k] - moved[k];
      LowerBoundMoves(d, x, centers[k], centers'[k], row0[k]);
      if lower < 0.0 {
        lower := 0.0;
      }
      row := row[k := lower];
      k := k + 1;
    }
    upper := upper0 + moved[a];
    Triangle(d, x, centers[a], centers'[a]);
  }

  // ----- The whole tables -----

  datatype Assignment = Assignment(closest: seq<int>, lower: seq<seq<real>>, upper: seq<real>)

  ghost predicate AllBounded(d: Distance, samples: seq<Vector>, centers: seq<Vector>, t: Assignment) {
    && |t.closest| == |t.lower| == |t.upper| == |samples|
    && forall j :: 0 <= j < |samples| ==> Bounded(d, samples[j], centers, t.closest[j], t.lower[j], t.upper[j])
  }

  ghost predicate AllNearest(d: Distance, samples: seq<Vector>, centers: seq<Vector>, closest: seq<int>) {
    |closest| == |samples| && forall j :: 0 <= j < |samples| ==> Nearest(d, samples[j], centers, closest[j])
  }

  /** Every upper bound is the exact distance. */
  ghost predicate AllExact(d: Distance, samples: seq<Vector>, centers: seq<Vector>, t: Assignment)
    requires AllBounded(d, samples, centers, t)
  {
    forall j :: 0 <= j < |samples| ==> t.upper[j] == d(samples[j], centers[t.closest[j]])
  }

  /** Step 1a. The source fills `[j][k]` and `[k][j]` from one computed distance. */
  method HalveDistances(d: Distance, centers: seq<Vector>) returns (half: seq<seq<real>>)
    requires IsMetric(d)
    ensures HalfDistances(d, centers, half)
  {
    var n := |centers|;
    half := seq(n, _ => seq(n, _ => 0.0));
    for j := 0 to n
      invariant |half| == n && forall i :: 0 <= i < n ==> |half[i]| == n
      invariant forall i, k :: 0 <= i < n && 0 <= k < n && i != k && (i < j || k < j) ==>
                  2.0 * half[i][k] == d(centers[i], centers[k])
    {
      half := HalveRow(d, centers, half, j);
    }
  }

  method HalveRow(d: Distance, centers: seq<Vector>, half0: seq<seq<real>>, j: nat) returns (half: seq<seq<real>>)
    requires IsMetric(d) && j < |centers| == |half0|
    requires forall i :: 0 <= i < |half0| ==> |half0[i]| == |centers|
    ensures |half| == |centers| && forall i :: 0 <= i < |half| ==> |half[i]| == |centers|
    ensures forall k :: j < k < |centers| ==>
              2.0 * half[j][k] == d(centers[j], centers[k]) && 2.0 * half[k][j] == d(centers[k], centers[j])
    ensures forall i, k :: 0 <= i < |centers| && 0 <= k < |centers| && !(i == j < k) && !(k == j < i) ==>
              half[i][k] == half0[i][k]
  {
    half := half0;
    for k := j + 1 to |centers|
      invariant |half| == |centers| && forall i :: 0 <= i < |half| ==> |half[i]| == |centers|
      invariant forall i :: j < i < k ==>
                  2.0 * half[j][i] == d(centers[j], centers[i]) && 2.0 * half[i][j] == d(centers[i], centers[j])
      invariant forall i, l :: 0 <= i < |centers| && 0 <= l < |centers| && !(i == j < l < k) && !(l == j < i < k) ==>
                  half[i][l] == half0[i][l]
    {
      var h := 0.5 * d(centers[j], centers[k]);
      Symmetric(d, centers[j], centers[k]);
      half := half[j := half[j][k := h]];
      half := half[k := half[k][j := h]];
    }
  }

  /** Step 1b for one centre. */
  method MinHalf(row: seq<real>, j: nat, cap: real) returns (s: real)
    requires j < |row|
    ensures RowMinimum(row, j, cap, s) && s <= cap
  {
    s := cap;
    for k := 0 to |row|
      invariant s <= cap && forall i :: 0 <= i < k && i != j ==> s <= row[i]
      invariant s == cap || exists i :: 0 <= i < k && i != j && s == row[i]
    {
      if k != j && row[k] < s {
        s := row[k];
      }
    }
  }

  method MinHalves(half: seq<seq<real>>, cap: real) returns (s: seq<real>)
    requires forall j :: 0 <= j < |half| ==> |half[j]| == |half|
    ensures |s| == |half| && forall j :: 0 <= j < |half| ==> RowMinimum(half[j], j, cap, s[j])
  {
    s := [];
    for j := 0 to |half|
      invariant |s| == j && forall i :: 0 <= i < j ==> RowMinimum(half[i], i, cap, s[i])
    {
      var m := MinHalf(half[j], j, cap);
      s := s + [m];
    }
  }

  /** Steps 1 to 3: every sample ends up at a nearest centre, exactly as an exhaustive scan would
      leave it; a sample only moves to a strictly closer centre, and `changes` says whether any did. */
  method Reassign(d: Distance, samples: seq<Vector>, centers: seq<Vector>, t0: Assignment, stale: bool, cap: real)
    returns (t: Assignment, changes: bool)
    requires IsMetric(d) && AllBounded(d, samples, centers, t0)
    requires !stale ==> AllExact(d, samples, centers, t0)
    ensures AllBounded(d, samples, centers, t) && AllNearest(d, samples, centers, t.closest)
    ensures changes <==> t.closest != t0.closest
    ensures forall j :: 0 <= j < |samples| && t.closest[j] != t0.closest[j] ==>
              d(samples[j], centers[t.closest[j]]) < d(samples[j], centers[t0.closest[j]])
  {
    var half := HalveDistances(d, centers);
    var s := MinHalves(half, cap);
    t, changes := SettleAll(d, samples, centers, half, s, t0, stale, cap);
  }

  method SettleAll(d: Distance, samples: seq<Vector>, centers: seq<Vector>, half: seq<seq<real>>, s: seq<real>,
                   t0: Assignment, stale: bool, ghost cap: real)
    returns (t: Assignment, changes: bool)
    requires IsMetric(d) && AllBounded(d, samples, centers, t0)
    requires !stale ==> AllExact(d, samples, centers, t0)
    requires HalfDistances(d, centers, half) && |s| == |centers|
    requires forall j :: 0 <= j < |half| ==> RowMinimum(half[j], j, cap, s[j])
    ensures SettledPrefix(d, samples, centers, t0, t, changes, |samples|)
  {
    t := Assignment([], [], []);
    changes := false;
    for j := 0 to |samples|
      invariant SettledPrefix(d, samples, centers, t0, t, changes, j)
    {
      assert Bounded(d, samples[j], centers, t0.closest[j], t0.lower[j], t0.upper[j]);
      var a, row, u, changed, _ :=
        PruneSample(d, samples[j], centers, half, s, cap, t0.closest[j], t0.lower[j], t0.upper[j], stale);
      SettledExtends(d, samples, centers, t0, t, changes, j, a, row, u);
      t := Assignment(t.closest + [a], t.lower + [row], t.upper + [u]);
      changes := changes || changed;
    }
  }

  /** The first `j` samples are settled, and `changes` says whether any of them moved. */
  ghost predicate SettledPrefix(d: Distance, samples: seq<Vector>, centers: seq<Vector>,
                                t0: Assignment, t: Assignment, changes: bool, j: nat)
  {
    && |t.closest| == |t.lower| == |t.upper| == j <= |samples| == |t0.closest|
    && (forall i :: 0 <= i < j ==>
          Settled(d, samples[i], centers, t0.closest[i], t.closest[i], t.lower[i], t.upper[i]))
    && (changes <==> exists i :: 0 <= i < j && t.closest[i] != t0.closest[i])
  }

  lemma SettledExtends(d: Distance, samples: seq<Vector>, centers: seq<Vector>,
                       t0: Assignment, t: Assignment, changes: bool, j: nat, a: int, row: seq<real>, u: real)
    requires SettledPrefix(d, samples, centers, t0, t, changes, j) && j < |samples|
    requires Settled(d, samples[j], centers, t0.closest[j], a, row, u)
    ensures SettledPrefix(d, samples, centers, t0, Assignment(t.closest + [a], t.lower + [row], t.upper + [u]),
                          changes || a != t0.closest[j], j + 1)
  {
    var t' := Assignment(t.closest + [a], t.lower + [row], t.upper + [u]);
    forall i | 0 <= i < j + 1
      ensures Settled(d, samples[i], centers, t0.closest[i], t'.closest[i], t'.lower[i], t'.upper[i])
    {
      assert i < j ==> t'.closest[i] == t.closest[i] && t'.lower[i] == t.lower[i] && t'.upper[i] == t.upper[i];
    }
    if changes {
      var i :| 0 <= i < j && t.closest[i] != t0.closest[i];
      assert t'.closest[i] != t0.closest[i];
    }
    if a != t0.closest[j] {
      assert t'.closest[j] != t0.closest[j];
    }
  }

  /** Steps 5 and 6: the bounds hold for any new centres. */
  method MoveAllBounds(d: Distance, ghost samples: seq<Vector>, centers: seq<Vector>, centers': seq<Vector>,
                       t0: Assignment)
    returns (t: Assignment)
    requires IsMetric(d) && AllBounded(d, samples, centers, t0) && |centers'| == |centers|
    ensures AllBounded(d, samples, centers', t) && t.closest == t0.closest
  {
    var moved := seq(|centers|, k requires 0 <= k < |centers| => d(centers[k], centers'[k]));
    var lower, upper := [], [];
    for j := 0 to |t0.closest|
      invariant |lower| == |upper| == j
      invariant forall i :: 0 <= i < j ==> Bounded(d, samples[i], centers', t0.closest[i], lower[i], upper[i])
    {
      assert Bounded(d, samples[j], centers, t0.closest[j], t0.lower[j], t0.upper[j]);
      var row, u := MoveBounds(d, samples[j], centers, centers', moved, t0.closest[j], t0.lower[j], t0.upper[j]);
      lower, upper := lower + [row], upper + [u];
    }
    t := Assignment(t0.closest, lower, upper);
  }

  // ----- New centres -----

  function Divide(u: Vector, x: real): (w: Vector)
    requires x != 0.0
    ensures |w| == |u|
  {
    seq(|u|, i requires 0 <= i < |u| => u[i] / x)
  }

  predicate AllOfDim(samples: seq<Vector>, dim: nat) {
    forall j :: 0 <= j < |samples| ==> |samples[j]| == dim
  }

  function Count(closest: seq<int>, c: int): nat {
    if closest == [] then 0 else
      Count(closest[..|closest| - 1], c) + if closest[|closest| - 1] == c then 1 else 0
  }

  /** The sum of the samples assigned to centre `c`. */
  function Sum(samples: seq<Vector>, closest: seq<int>, c: int, dim: nat): (v: Vector)
    requires |samples| == |closest| && AllOfDim(samples, dim)
    ensures |v| == dim
  {
    if samples == [] then Zero(dim) else
      var last := |samples| - 1;
      var rest := Sum(samples[..last], closest[..last], c, dim);
      if closest[last] == c then Add(rest, samples[last]) else rest
  }

  datatype Norm = NoNorm | NormBy(f: Vector -> real)

  /** `ApplyNorm`: divide by the norm when it is positive. */
  function Normalise(norm: Norm, v: Vector): (w: Vector)
    ensures |w| == |v|
  {
    if norm.NormBy? && norm.f(v) > 0.0 then Divide(v, norm.f(v)) else v
  }

  /** The (optionally normalised) mean of the samples assigned to centre `c`. */
  function Mean(norm: Norm, samples: seq<Vector>, closest: seq<int>, c: int, dim: nat): Vector
    requires |samples| == |closest| && AllOfDim(samples, dim) && Count(closest, c) > 0
  {
    Normalise(norm, Divide(Sum(samples, closest, c, dim), Count(closest, c) as real))
  }

  // ----- What a mean is -----

  /** How far coordinate `k` of the samples of centre `c` lies from `x`, added up. */
  ghost function Deviation(samples: seq<Vector>, closest: seq<int>, c: int, dim: nat, k: nat, x: real): real
    requires |samples| == |closest| && AllOfDim(samples, dim) && k < dim
  {
    if samples == [] then 0.0 else
      var last := |samples| - 1;
      Deviation(samples[..last], closest[..last], c, dim, k, x) +
      (if closest[last] == c then samples[last][k] - x else 0.0)
  }

  /** The samples of centre `c` balance around `v` in every coordinate. */
  ghost predicate Balances(samples: seq<Vector>, closest: seq<int>, c: int, dim: nat, v: Vector)
    requires |samples| == |closest| && AllOfDim(samples, dim)
  {
    |v| == dim && forall k :: 0 <= k < dim ==> Deviation(samples, closest, c, dim, k, v[k]) == 0.0
  }

  /** `v` times the norm of `raw` is `raw`, where there is a positive norm; otherwise `v` is `raw`. */
  ghost predicate IsNormalised(norm: Norm, raw: Vector, v: Vector) {
    if norm.NormBy? && norm.f(raw) > 0.0
    then |v| == |raw| && forall k :: 0 <= k < |v| ==> v[k] * norm.f(raw) == raw[k]
    else v == raw
  }

  /** `v` is the centre of its samples: the point they balance around, normalised. */
  ghost predicate IsCentre(norm: Norm, samples: seq<Vector>, closest: seq<int>, c: int, dim: nat, v: Vector)
    requires |samples| == |closest| && AllOfDim(samples, dim)
  {
    exists raw :: Balances(samples, closest, c, dim, raw) && IsNormalised(norm, raw, v)
  }

  /** `n` times `x`, by addition. */
  ghost function Repeated(n: nat, x: real): real {
    if n == 0 then 0.0 else Repeated(n - 1, x) + x
  }

  lemma {:induction false} RepeatedIsProduct(n: nat, x: real, nx: real)
    requires nx == n as real * x
    ensures Repeated(n, x) == nx
  {
    if n > 0 {
      var m := (n - 1) as real;
      RepeatedIsProduct(n - 1, x, m * x);
      OneTimeMore(m, n as real, x);
    }
  }

  lemma OneTimeMore(m: real, n: real, x: real)
    requires n == m + 1.0
    ensures n * x == m * x + x
  {
  }

  lemma {:induction false} DeviationOfSum(samples: seq<Vector>, closest: seq<int>, c: int, dim: nat, k: nat, x: real)
    requires |samples| == |closest| && AllOfDim(samples, dim) && k < dim
    ensures Deviation(samples, closest, c, dim, k, x) ==
            Sum(samples, closest, c, dim)[k] - Repeated(Count(closest, c), x)
  {
    if samples != [] {
      var last := |samples| - 1;
      DeviationOfSum(samples[..last], closest[..last], c, dim, k, x);
    }
  }

  lemma NormaliseScales(norm: Norm, raw: Vector)
    ensures IsNormalised(norm, raw, Normalise(norm, raw))
  {
    if norm.NormBy? && norm.f(raw) > 0.0 {
      var w, x := Normalise(norm, raw), norm.f(raw);
      forall k | 0 <= k < |w| ensures w[k] * x == raw[k] {
        QuotientTimes(raw[k], x, w[k]);
      }
    }
  }

  lemma QuotientTimes(y: real, x: real, q: real)
    requires x != 0.0 && q == y / x
    ensures q * x == y
  {
  }

  lemma MeanIsCentre(norm: Norm, samples: seq<Vector>, closest: seq<int>, c: int, dim: nat)
    requires |samples| == |closest| && AllOfDim(samples, dim) && Count(closest, c) > 0
    ensures IsCentre(norm, samples, closest, c, dim, Mean(norm, samples, closest, c, dim))
  {
    var n := Count(closest, c) as real;
    var sum := Sum(samples, closest, c, dim);
    var raw := Divide(sum, n);
    forall k | 0 <= k < dim ensures Deviation(samples, closest, c, dim, k, raw[k]) == 0.0 {
      QuotientTimes(sum[k], n, raw[k]);
      RepeatedIsProduct(Count(closest, c), raw[k], sum[k]);
      DeviationOfSum(samples, closest, c, dim, k, raw[k]);
    }
    NormaliseScales(norm, raw);
  }

  /** The squared distances of the samples of centre `c` to `v`, added up. */
  ghost function SquaredError(samples: seq<Vector>, closest: seq<int>, c: int, dim: nat, v: Vector): real
    requires |samples| == |closest| && AllOfDim(samples, dim) && |v| == dim
  {
    if samples == [] then 0.0 else
      var last := |samples| - 1;
      SquaredError(samples[..last], closest[..last], c, dim, v) +
      (if closest[last] == c then DistanceSquared(samples[last], v) else 0.0)
  }

  /** The samples' differences to `v`, added up, as an inner product with `w`. */
  ghost function CrossTerms(samples: seq<Vector>, closest: seq<int>, c: int, dim: nat, v: Vector, w: Vector): real
    requires |samples| == |closest| && AllOfDim(samples, dim) && |v| == |w| == dim
  {
    if samples == [] then 0.0 else
      var last := |samples| - 1;
      CrossTerms(samples[..last], closest[..last], c, dim, v, w) +
      (if closest[last] == c then Dot(Sub(samples[last], v), w) else 0.0)
  }

  ghost function Deviations(samples: seq<Vector>, closest: seq<int>, c: int, dim: nat, v: Vector): (r: Vector)
    requires |samples| == |closest| && AllOfDim(samples, dim) && |v| == dim
    ensures |r| == dim
  {
    seq(dim, k requires 0 <= k < dim => Deviation(samples, closest, c, dim, k, v[k]))
  }

  lemma {:induction false} CrossTermsCollect(samples: seq<Vector>, closest: seq<int>, c: int, dim: nat,
                                             v: Vector, w: Vector)
    requires |samples| == |closest| && AllOfDim(samples, dim) && |v| == |w| == dim
    ensures CrossTerms(samples, closest, c, dim, v, w) == Dot(Deviations(samples, closest, c, dim, v), w)
  {
    var dev := Deviations(samples, closest, c, dim, v);
    if samples == [] {
      RangeZero(dev, w, 0, dim);
    } else {
      var last := |samples| - 1;
      CrossTermsCollect(samples[..last], closest[..last], c, dim, v, w);
      var front := Deviations(samples[..last], closest[..last], c, dim, v);
      if closest[last] == c {
        assert dev == Add(front, Sub(samples[last], v));
        DotAdd(front, Sub(samples[last], v), w);
      } else {
        assert dev == front;
      }
    }
  }

  /** Moving the reference point from `v` to `u`. */
  lemma {:induction false} ErrorMoves(samples: seq<Vector>, closest: seq<int>, c: int, dim: nat, v: Vector, u: Vector)
    requires |samples| == |closest| && AllOfDim(samples, dim) && |v| == |u| == dim
    ensures SquaredError(samples, closest, c, dim, u)
         == SquaredError(samples, closest, c, dim, v) + 2.0 * CrossTerms(samples, closest, c, dim, v, Sub(v, u))
            + Repeated(Count(closest, c), DistanceSquared(v, u))
  {
    if samples != [] {
      var last := |samples| - 1;
      ErrorMoves(samples[..last], closest[..last], c, dim, v, u);
      if closest[last] == c {
        DistanceMoves(samples[last], v, u);
      }
    }
  }

  lemma DistanceMoves(x: Vector, v: Vector, u: Vector)
    requires |x| == |v| == |u|
    ensures DistanceSquared(x, u) == DistanceSquared(x, v) + 2.0 * Dot(Sub(x, v), Sub(v, u)) + DistanceSquared(v, u)
  {
    var a, b := Sub(x, v), Sub(v, u);
    assert Sub(x, u) == Add(a, b);
    DotAdd(a, b, Add(a, b));
    DotAdd(a, b, a);
    DotAdd(a, b, b);
    DotSymmetric(a, b);
    DotSymmetric(a, Add(a, b));
    DotSymmetric(b, Add(a, b));
  }

  lemma ErrorFromBalance(samples: seq<Vector>, closest: seq<int>, c: int, dim: nat, v: Vector, u: Vector)
    requires |samples| == |closest| && AllOfDim(samples, dim) && |u| == dim
    requires Balances(samples, closest, c, dim, v)
    ensures SquaredError(samples, closest, c, dim, u) ==
            SquaredError(samples, closest, c, dim, v) + Repeated(Count(closest, c), DistanceSquared(v, u))
  {
    ErrorMoves(samples, closest, c, dim, v, u);
    CrossTermsCollect(samples, closest, c, dim, v, Sub(v, u));
    NoDeviation(samples, closest, c, dim, v, Sub(v, u));
  }

  lemma NoDeviation(samples: seq<Vector>, closest: seq<int>, c: int, dim: nat, v: Vector, w: Vector)
    requires |samples| == |closest| && AllOfDim(samples, dim) && |w| == dim
    requires Balances(samples, closest, c, dim, v)
    ensures Dot(Deviations(samples, closest, c, dim, v), w) == 0.0
  {
    RangeZero(Deviations(samples, closest, c, dim, v), w, 0, dim);
  }

  lemma {:induction false} RepeatedAtLeast(n: nat, x: real)
    requires n > 0 && x >= 0.0
    ensures Repeated(n, x) >= x && (x == 0.0 ==> Repeated(n, x) == 0.0)
  {
    if n > 1 {
      RepeatedAtLeast(n - 1, x);
    }
  }

  lemma DistanceDecides(v: Vector, u: Vector)
    requires |v| == |u|
    ensures DistanceSquared(v, u) >= 0.0 && (DistanceSquared(v, u) == 0.0 <==> u == v)
  {
    var w := Sub(v, u);
    if u == v {
      RangeZero(w, w, 0, |w|);
    } else {
      var k: nat :| k < |v| && u[k] != v[k];
      RangeSelfPositive(w, |w|, k);
    }
  }

  /** The point its samples balance around has the least sum of squared distances to them, and no other has. */
  lemma BalancePointIsLeastSquares(samples: seq<Vector>, closest: seq<int>, c: int, dim: nat, v: Vector, u: Vector)
    requires |samples| == |closest| && AllOfDim(samples, dim) && |u| == dim
    requires Balances(samples, closest, c, dim, v) && Count(closest, c) > 0
    ensures SquaredError(samples, closest, c, dim, v) <= SquaredError(samples, closest, c, dim, u)
    ensures SquaredError(samples, closest, c, dim, v) == SquaredError(samples, closest, c, dim, u) <==> u == v
  {
    ErrorFromBalance(samples, closest, c, dim, v, u);
    DistanceDecides(v, u);
    RepeatedAtLeast(Count(closest, c), DistanceSquared(v, u));
  }

  /** Every non-empty cluster's new centre is the centre of its samples; an empty cluster's may be anything. */
  ghost predicate MeansOf(norm: Norm, samples: seq<Vector>, closest: seq<int>, dim: nat, centers: seq<Vector>)
    requires |samples| == |closest| && AllOfDim(samples, dim)
  {
    forall c :: 0 <= c < |centers| && Count(closest, c) > 0 ==>
      && centers[c] == Mean(norm, samples, closest, c, dim)
      && IsCentre(norm, samples, closest, c, dim, centers[c])
  }

  /** Steps 4a and 4b: accumulate sums and counts, one sample at a time. */
  method Accumulate(samples: seq<Vector>, closest: seq<int>, dim: nat, n: nat)
    returns (sums: seq<Vector>, counts: seq<nat>)
    requires |samples| == |closest| && AllOfDim(samples, dim)
    requires forall j :: 0 <= j < |closest| ==> 0 <= closest[j] < n
    ensures |sums| == |counts| == n
    ensures forall c :: 0 <= c < n ==> sums[c] == Sum(samples, closest, c, dim) && counts[c] == Count(closest, c)
  {
    sums, counts := seq(n, _ => Zero(dim)), seq(n, _ => 0);
    for j := 0 to |samples|
      invariant |sums| == |counts| == n
      invariant forall c :: 0 <= c < n ==>
                  sums[c] == Sum(samples[..j], closest[..j], c, dim) && counts[c] == Count(closest[..j], c)
    {
      assert samples[..j + 1][..j] == samples[..j] && closest[..j + 1][..j] == closest[..j];
      var a := closest[j];
      sums := sums[a := Add(sums[a], samples[j])];
      counts := counts[a := counts[a] + 1];
    }
    assert samples[..|samples|] == samples && closest[..|closest|] == closest;
  }

  /** Step 4: means for non-empty clusters, the oracle's vectors for empty ones. */
  method UpdateCenters(norm: Norm, samples: seq<Vector>, closest: seq<int>, dim: nat, n: nat, refill: nat -> Vector)
    returns (centers: seq<Vector>)
    requires |samples| == |closest| && AllOfDim(samples, dim)
    requires forall j :: 0 <= j < |closest| ==> 0 <= closest[j] < n
    ensures |centers| == n && MeansOf(norm, samples, closest, dim, centers)
    ensures forall c :: 0 <= c < n && Count(closest, c) == 0 ==> IsNormalised(norm, refill(c), centers[c])
  {
    var sums, counts := Accumulate(samples, closest, dim, n);
    centers := [];
    for c := 0 to n
      invariant |centers| == c
      invariant forall i :: 0 <= i < c && Count(closest, i) > 0 ==>
                  && centers[i] == Mean(norm, samples, closest, i, dim)
                  && IsCentre(norm, samples, closest, i, dim, centers[i])
      invariant forall i :: 0 <= i < c && Count(closest, i) == 0 ==> IsNormalised(norm, refill(i), centers[i])
    {
      var vec := if counts[c] > 0 then Divide(sums[c], counts[c] as real) else refill(c);
      if Count(closest, c) > 0 {
        MeanIsCentre(norm, samples, closest, c, dim);
      } else {
        NormaliseScales(norm, vec);
      }
      centers := centers + [Normalise(norm, vec)];
    }
  }

  // ----- Seeding -----

  /** The weight of a sample: its least squared distance to the first `n` centres, or the cap. */
  function Weight(d: Distance, x: Vector, centers: seq<Vector>, n: nat, cap: real): real
    requires n <= |centers|
  {
    if n == 0 then cap
    else
      var distance := d(x, centers[n - 1]);
      var rest := Weight(d, x, centers, n - 1, cap);
      if distance * distance < rest then distance * distance else rest
  }

  lemma {:induction false} WeightIsLeast(d: Distance, x: Vector, centers: seq<Vector>, n: nat, cap: real)
    requires n <= |centers|
    ensures Weight(d, x, centers, n, cap) <= cap
    ensures forall i :: 0 <= i < n ==> Weight(d, x, centers, n, cap) <= d(x, centers[i]) * d(x, centers[i])
    ensures Weight(d, x, centers, n, cap) == cap ||
            exists i: nat :: i < n && Weight(d, x, centers, n, cap) == d(x, centers[i]) * d(x, centers[i])
  {
    if n > 0 {
      WeightIsLeast(d, x, centers, n - 1, cap);
    }
  }

  lemma {:induction false} WeightExtends(d: Distance, x: Vector, centers: seq<Vector>, next: Vector, n: nat, cap: real)
    requires n <= |centers|
    ensures Weight(d, x, centers + [next], n, cap) == Weight(d, x, centers, n, cap)
  {
    if n > 0 {
      WeightExtends(d, x, centers, next, n - 1, cap);
    }
  }

  function Weights(d: Distance, samples: seq<Vector>, centers: seq<Vector>, n: nat, cap: real): seq<real>
    requires n <= |centers|
  {
    seq(|samples|, j requires 0 <= j < |samples| => Weight(d, samples[j], centers, n, cap))
  }

  lemma WeightsExtend(d: Distance, samples: seq<Vector>, centers: seq<Vector>, next: Vector, n: nat, cap: real)
    requires n <= |centers|
    ensures Weights(d, samples, centers + [next], n, cap) == Weights(d, samples, centers, n, cap)
  {
    forall j | 0 <= j < |samples|
      ensures Weight(d, samples[j], centers + [next], n, cap) == Weight(d, samples[j], centers, n, cap)
    {
      WeightExtends(d, samples[j], centers, next, n, cap);
    }
  }

  function PrefixSum(weight: seq<real>, n: nat): real
    requires n <= |weight|
  {
    if n == 0 then 0.0 else PrefixSum(weight, n - 1) + weight[n - 1]
  }

  /** The weighted draw: the first sample whose running sum reaches `choice`, or the last one. */
  ghost predicate IsDrawn(weight: seq<real>, choice: real, j: nat) {
    && j < |weight|
    && (forall i :: 1 <= i <= j ==> PrefixSum(weight, i) < choice)
    && (j + 1 < |weight| ==> choice <= PrefixSum(weight, j + 1))
  }

  ghost predicate DrawnBy(weight: seq<real>, draw: real, j: nat) {
    IsDrawn(weight, PrefixSum(weight, |weight|) * draw, j)
  }

  method SumWeights(weight: seq<real>) returns (sum: real)
    ensures sum == PrefixSum(weight, |weight|)
  {
    sum := 0.0;
    for j := 0 to |weight|
      invariant sum == PrefixSum(weight, j)
    {
      sum := sum + weight[j];
    }
  }

  method DrawWeighted(weight: seq<real>, total: real) returns (j: nat)
    requires weight != []
    ensures IsDrawn(weight, total, j)
  {
    var choice := total;
    j := 0;
    while j < |weight| - 1
      invariant j < |weight| && choice == total - PrefixSum(weight, j)
      invariant forall i :: 1 <= i <= j ==> PrefixSum(weight, i) < total
    {
      choice := choice - weight[j];
      if choice <= 0.0 {
        break;
      }
      j := j + 1;
    }
  }

  method DrawCenter(weight: seq<real>, draw: real) returns (j: nat)
    requires weight != []
    ensures DrawnBy(weight, draw, j)
  {
    var sum := SumWeights(weight);
    j := DrawWeighted(weight, sum * draw);
  }

  /** The first `n` columns of the lower-bound table hold the distances to the first `n` centres. */
  ghost predicate ExactColumns(d: Distance, samples: seq<Vector>, centers: seq<Vector>, lower: seq<seq<real>>,
                               n: nat, width: nat)
  {
    && n <= |centers| && n <= width && |lower| == |samples|
    && (forall j :: 0 <= j < |samples| ==> |lower[j]| == width)
    && (forall j, i :: 0 <= j < |samples| && 0 <= i < n ==> lower[j][i] == d(samples[j], centers[i]))
  }

  /** One column of the table, and the weights it lowers. */
  method MeasureCenter(d: Distance, samples: seq<Vector>, centers: seq<Vector>, lower0: seq<seq<real>>,
                       weight0: seq<real>, i: nat, width: nat, ghost cap: real)
    returns (lower: seq<seq<real>>, weight: seq<real>)
    requires i < |centers| && i < width && ExactColumns(d, samples, centers, lower0, i, width)
    requires weight0 == Weights(d, samples, centers, i, cap)
    ensures ExactColumns(d, samples, centers, lower, i + 1, width)
    ensures weight == Weights(d, samples, centers, i + 1, cap)
  {
    lower, weight := [], [];
    for j := 0 to |samples|
      invariant |lower| == |weight| == j
      invariant forall k :: 0 <= k < j ==> lower[k] == lower0[k][i := d(samples[k], centers[i])]
      invariant forall k :: 0 <= k < j ==> weight[k] == Weight(d, samples[k], centers, i + 1, cap)
    {
      var distance := d(samples[j], centers[i]);
      var square := distance * distance;
      lower := lower + [lower0[j][i := distance]];
      weight := weight + [if square < weight0[j] then square else weight0[j]];
    }
  }

  /** The seeds are samples: the first as given, each further one drawn by the weights of those before it. */
  ghost predicate SeededBy(d: Distance, samples: seq<Vector>, first: nat, draws: seq<real>, cap: real,
                           seeds: seq<Vector>, picks: seq<nat>)
  {
    && 1 <= |seeds| == |picks| <= |draws| + 1 && picks[0] == first
    && (forall i :: 0 <= i < |picks| ==> picks[i] < |samples| && seeds[i] == samples[picks[i]])
    && (forall i :: 1 <= i < |picks| ==> DrawnBy(Weights(d, samples, seeds, i, cap), draws[i - 1], picks[i]))
  }

  /** The seeds so far, with the table and the weights measured against the first `n` of them. */
  ghost predicate SeedState(d: Distance, samples: seq<Vector>, first: nat, draws: seq<real>, cap: real,
                            seeds: seq<Vector>, picks: seq<nat>, lower: seq<seq<real>>, weight: seq<real>, n: nat)
  {
    && SeededBy(d, samples, first, draws, cap, seeds, picks)
    && ExactColumns(d, samples, seeds, lower, n, |draws| + 1)
    && weight == Weights(d, samples, seeds, n, cap)
  }

  lemma SeededByExtends(d: Distance, samples: seq<Vector>, first: nat, draws: seq<real>, cap: real,
                        seeds: seq<Vector>, picks: seq<nat>, j: nat)
    requires SeededBy(d, samples, first, draws, cap, seeds, picks) && |picks| <= |draws| && j < |samples|
    requires DrawnBy(Weights(d, samples, seeds, |picks|, cap), draws[|picks| - 1], j)
    ensures SeededBy(d, samples, first, draws, cap, seeds + [samples[j]], picks + [j])
  {
    var more := picks + [j];
    forall i | 1 <= i < |more|
      ensures DrawnBy(Weights(d, samples, seeds + [samples[j]], i, cap), draws[i - 1], more[i])
    {
      WeightsExtend(d, samples, seeds, samples[j], i, cap);
    }
  }

  lemma SeedsExtend(d: Distance, samples: seq<Vector>, first: nat, draws: seq<real>, cap: real, seeds: seq<Vector>,
                    picks: seq<nat>, lower: seq<seq<real>>, weight: seq<real>, n: nat, j: nat)
    requires SeedState(d, samples, first, draws, cap, seeds, picks, lower, weight, n)
    requires n == |picks| <= |draws| && j < |samples| && DrawnBy(weight, draws[n - 1], j)
    ensures SeedState(d, samples, first, draws, cap, seeds + [samples[j]], picks + [j], lower, weight, n)
  {
    SeededByExtends(d, samples, first, draws, cap, seeds, picks, j);
    WeightsExtend(d, samples, seeds, samples[j], n, cap);
  }

  /** `InitCenters`: the first centre is any sample, each further one the weighted draw by the squared
      distances to the centres so far. The exact distances stay in the lower-bound table. */
  method InitCenters(d: Distance, samples: seq<Vector>, first: nat, draws: seq<real>, cap: real)
    returns (centers: seq<Vector>, lower: seq<seq<real>>, picks: seq<nat>)
    requires first < |samples|
    ensures SeededBy(d, samples, first, draws, cap, centers, picks) && |picks| == |draws| + 1
    ensures ExactColumns(d, samples, centers, lower, |centers|, |centers|)
  {
    var n := |draws| + 1;
    centers, picks := [samples[first]], [first];
    lower := seq(|samples|, _ => seq(n, _ => 0.0));
    var weight := seq(|samples|, _ => cap);
    assert weight == Weights(d, samples, centers, 0, cap);
    for i := 0 to n
      invariant |picks| == if i == n then n else i + 1
      invariant SeedState(d, samples, first, draws, cap, centers, picks, lower, weight, i)
    {
      lower, weight := MeasureCenter(d, samples, centers, lower, weight, i, n, cap);
      if i + 1 < n {
        var j := DrawCenter(weight, draws[i]);
        SeedsExtend(d, samples, first, draws, cap, centers, picks, lower, weight, i + 1, j);
        centers, picks := centers + [samples[j]], picks + [j];
      }
    }
  }

  /** The initial scan over one row of exact distances. */
  method ClosestOf(row: seq<real>, cap: real) returns (best: nat, least: real)
    requires row != [] && forall k :: 0 <= k < |row| ==> row[k] < cap
    ensures best < |row| && least == row[best] && forall k :: 0 <= k < |row| ==> least <= row[k]
  {
    best, least := 0, cap;
    for k := 0 to |row|
      invariant best < |row| && (k > 0 ==> least == row[best]) && (k == 0 ==> least == cap)
      invariant forall i :: 0 <= i < k ==> least <= row[i]
    {
      if row[k] < least {
        best, least := k, row[k];
      }
    }
  }

  method InitialAssignment(d: Distance, samples: seq<Vector>, centers: seq<Vector>, lower: seq<seq<real>>, cap: real)
    returns (t: Assignment)
    requires centers != [] && ExactColumns(d, samples, centers, lower, |centers|, |centers|)
    requires forall j, i :: 0 <= j < |samples| && 0 <= i < |centers| ==> d(samples[j], centers[i]) < cap
    ensures AllBounded(d, samples, centers, t) && AllExact(d, samples, centers, t)
    ensures AllNearest(d, samples, centers, t.closest)
  {
    var closest: seq<int>, upper := [], [];
    for j := 0 to |samples|
      invariant |closest| == |upper| == j
      invariant forall i :: 0 <= i < j ==>
                  Bounded(d, samples[i], centers, closest[i], lower[i], upper[i]) &&
                  upper[i] == d(samples[i], centers[closest[i]])
      invariant forall i :: 0 <= i < j ==> Nearest(d, samples[i], centers, closest[i])
    {
      assert forall k :: 0 <= k < |lower[j]| ==> lower[j][k] == d(samples[j], centers[k]);
      var best, least := ClosestOf(lower[j], cap);
      closest, upper := closest + [best], upper + [least];
    }
    t := Assignment(closest, lower, upper);
  }

  // ----- Runs -----

  /** One iteration as plain Lloyd iteration sees it. */
  datatype Round = Round(centers: seq<Vector>, closest: seq<int>)

  ghost predicate LloydRound(d: Distance, norm: Norm, samples: seq<Vector>, dim: nat, r: Round, next: seq<Vector>)
    requires AllOfDim(samples, dim)
  {
    && |next| == |r.centers|
    && AllNearest(d, samples, r.centers, r.closest)
    && MeansOf(norm, samples, r.closest, dim, next)
  }

  ghost function CentersAfter(rounds: seq<Round>, t: nat, final: seq<Vector>): seq<Vector>
    requires t < |rounds|
  {
    if t + 1 < |rounds| then rounds[t + 1].centers else final
  }

  /** Exhaustive assignment and mean update, alternating, from the first round's centres to `final`. */
  ghost predicate LloydRun(d: Distance, norm: Norm, samples: seq<Vector>, dim: nat, rounds: seq<Round>,
                           final: seq<Vector>)
    requires AllOfDim(samples, dim)
  {
    forall t :: 0 <= t < |rounds| ==>
      LloydRound(d, norm, samples, dim, rounds[t], CentersAfter(rounds, t, final))
  }

  lemma LloydRunExtends(d: Distance, norm: Norm, samples: seq<Vector>, dim: nat,
                        rounds: seq<Round>, r: Round, next: seq<Vector>)
    requires AllOfDim(samples, dim) && LloydRun(d, norm, samples, dim, rounds, r.centers)
    requires LloydRound(d, norm, samples, dim, r, next)
    ensures LloydRun(d, norm, samples, dim, rounds + [r], next)
  {
    var more := rounds + [r];
    forall t | 0 <= t < |more|
      ensures LloydRound(d, norm, samples, dim, more[t], CentersAfter(more, t, next))
    {
      if t < |rounds| {
        assert more[t] == rounds[t] && CentersAfter(more, t, next) == CentersAfter(rounds, t, r.centers);
      }
    }
  }

  /** One iteration of the loop: prune and reassign, move the centres, repair the bounds. */
  method Iterate(d: Distance, norm: Norm, samples: seq<Vector>, dim: nat, centers: seq<Vector>, t0: Assignment,
                 stale: bool, refill: nat -> Vector, cap: real)
    returns (centers': seq<Vector>, t: Assignment, changes: bool)
    requires IsMetric(d) && AllOfDim(samples, dim) && AllBounded(d, samples, centers, t0)
    requires !stale ==> AllExact(d, samples, centers, t0)
    ensures LloydRound(d, norm, samples, dim, Round(centers, t.closest), centers')
    ensures AllBounded(d, samples, centers', t)
    ensures changes <==> t.closest != t0.closest
  {
    var pruned;
    pruned, changes := Reassign(d, samples, centers, t0, stale, cap);
    ClosestInRange(d, samples, centers, pruned);
    centers' := UpdateCenters(norm, samples, pruned.closest, dim, |centers|, refill);
    t := MoveAllBounds(d, samples, centers, centers', pruned);
  }

  lemma ClosestInRange(d: Distance, samples: seq<Vector>, centers: seq<Vector>, t: Assignment)
    requires AllBounded(d, samples, centers, t)
    ensures forall j :: 0 <= j < |t.closest| ==> 0 <= t.closest[j] < |centers|
  {
    forall j | 0 <= j < |t.closest| ensures 0 <= t.closest[j] < |centers| {
      assert Bounded(d, samples[j], centers, t.closest[j], t.lower[j], t.upper[j]);
    }
  }

  ghost predicate RunState(d: Distance, norm: Norm, samples: seq<Vector>, dim: nat, seeds: seq<Vector>,
                           rounds: seq<Round>, centers: seq<Vector>, closest: seq<int>, converged: bool)
    requires AllOfDim(samples, dim)
  {
    && |centers| == |seeds| && CentersBefore(rounds, centers) == seeds
    && LloydRun(d, norm, samples, dim, rounds, centers)
    && (rounds != [] ==> closest == rounds[|rounds| - 1].closest)
    && StopsAtFirst(rounds, converged)
  }

  /** The run has converged exactly if its last round repeats the assignment before it, and no earlier round does. */
  ghost predicate StopsAtFirst(rounds: seq<Round>, converged: bool) {
    && (converged <==> |rounds| >= 2 && rounds[|rounds| - 1].closest == rounds[|rounds| - 2].closest)
    && forall j, k :: 0 <= j && k == j + 1 < |rounds| - 1 ==> rounds[k].closest != rounds[j].closest
  }

  ghost function CentersBefore(rounds: seq<Round>, centers: seq<Vector>): seq<Vector> {
    if rounds == [] then centers else rounds[0].centers
  }

  lemma RunAdvances(d: Distance, norm: Norm, samples: seq<Vector>, dim: nat, seeds: seq<Vector>,
                    rounds: seq<Round>, centers: seq<Vector>, closest: seq<int>,
                    centers': seq<Vector>, closest': seq<int>)
    requires AllOfDim(samples, dim)
    requires RunState(d, norm, samples, dim, seeds, rounds, centers, closest, false)
    requires LloydRound(d, norm, samples, dim, Round(centers, closest'), centers')
    ensures RunState(d, norm, samples, dim, seeds, rounds + [Round(centers, closest')], centers', closest',
                     closest' == closest && rounds != [])
  {
    LloydRunExtends(d, norm, samples, dim, rounds, Round(centers, closest'), centers');
  }

  /** The seeded centres and the exact initial assignment. */
  method Seed(d: Distance, samples: seq<Vector>, first: nat, draws: seq<real>, cap: real)
    returns (centers: seq<Vector>, t: Assignment, picks: seq<nat>)
    requires first < |samples|
    requires forall i, j :: 0 <= i < |samples| && 0 <= j < |samples| ==> d(samples[i], samples[j]) < cap
    ensures SeededBy(d, samples, first, draws, cap, centers, picks) && |picks| == |draws| + 1
    ensures AllBounded(d, samples, centers, t) && AllExact(d, samples, centers, t)
    ensures AllNearest(d, samples, centers, t.closest)
  {
    var lower;
    centers, lower, picks := InitCenters(d, samples, first, draws, cap);
    t := InitialAssignment(d, samples, centers, lower, cap);
  }

  /** What the loop keeps: the bounds hold, exact ones before the first iteration, and the rounds so far are a run. */
  ghost predicate LoopState(d: Distance, norm: Norm, samples: seq<Vector>, dim: nat, seeds: seq<Vector>,
                            rounds: seq<Round>, centers: seq<Vector>, t: Assignment, converged: bool)
    requires AllOfDim(samples, dim)
  {
    && AllBounded(d, samples, centers, t) && (rounds == [] ==> AllExact(d, samples, centers, t))
    && RunState(d, norm, samples, dim, seeds, rounds, centers, t.closest, converged)
  }

  lemma LoopAdvances(d: Distance, norm: Norm, samples: seq<Vector>, dim: nat, seeds: seq<Vector>,
                     rounds: seq<Round>, centers: seq<Vector>, t: Assignment, centers': seq<Vector>, t': Assignment)
    requires AllOfDim(samples, dim)
    requires LoopState(d, norm, samples, dim, seeds, rounds, centers, t, false)
    requires LloydRound(d, norm, samples, dim, Round(centers, t'.closest), centers')
    requires AllBounded(d, samples, centers', t')
    ensures LoopState(d, norm, samples, dim, seeds, rounds + [Round(centers, t'.closest)], centers', t',
                      t'.closest == t.closest && rounds != [])
  {
    RunAdvances(d, norm, samples, dim, seeds, rounds, centers, t.closest, centers', t'.closest);
  }

  /** At most 500 iterations, left early once one after the first changes nothing. */
  method IterateToEnd(d: Distance, norm: Norm, samples: seq<Vector>, dim: nat, seeds: seq<Vector>, t0: Assignment,
                      refill: nat -> (nat -> Vector), cap: real)
    returns (centers: seq<Vector>, t: Assignment, converged: bool, ghost rounds: seq<Round>)
    requires IsMetric(d) && AllOfDim(samples, dim)
    requires AllBounded(d, samples, seeds, t0) && AllExact(d, samples, seeds, t0)
    ensures LoopState(d, norm, samples, dim, seeds, rounds, centers, t, converged)
    ensures 1 <= |rounds| <= 500 && (!converged ==> |rounds| == 500)
  {
    centers, t, rounds, converged := seeds, t0, [], false;
    var iteration := 0;
    while iteration < 500 && !converged
      invariant |rounds| == iteration <= 500 && (converged ==> iteration > 0)
      invariant LoopState(d, norm, samples, dim, seeds, rounds, centers, t, converged)
      decreases 500 - iteration
    {
      var centers', t', changes :=
        Iterate(d, norm, samples, dim, centers, t, iteration != 0, refill(iteration), cap);
      LoopAdvances(d, norm, samples, dim, seeds, rounds, centers, t, centers', t');
      rounds := rounds + [Round(centers, t'.closest)];
      converged := !changes && iteration != 0;
      centers, t, iteration := centers', t', iteration + 1;
    }
  }

  /** `ElkanKmeans`: seeding, the initial assignment and the iterations. */
  method ElkanKmeans(d: Distance, norm: Norm, samples: seq<Vector>, dim: nat, first: nat, draws: seq<real>,
                     refill: nat -> (nat -> Vector), cap: real)
    returns (centers: seq<Vector>, t: Assignment, converged: bool,
             ghost picks: seq<nat>, ghost seeds: seq<Vector>, ghost rounds: seq<Round>)
    requires IsMetric(d) && AllOfDim(samples, dim) && first < |samples| && |draws| + 1 < |samples|
    requires forall i, j :: 0 <= i < |samples| && 0 <= j < |samples| ==> d(samples[i], samples[j]) < cap
    ensures SeededBy(d, samples, first, draws, cap, seeds, picks) && |picks| == |draws| + 1
    ensures RunState(d, norm, samples, dim, seeds, rounds, centers, t.closest, converged)
    ensures AllBounded(d, samples, centers, t)
    ensures 1 <= |rounds| <= 500 && (!converged ==> |rounds| == 500)
  {
    var initial, t0;
    initial, t0, picks := Seed(d, samples, first, draws, cap);
    seeds := initial;
    centers, t, converged, rounds := IterateToEnd(d, norm, samples, dim, initial, t0, refill, cap);
  }

  ghost predicate NoEmptyCluster(closest: seq<int>, n: nat) {
    forall c :: 0 <= c < n ==> Count(closest, c) > 0
  }

  /** Leaving by the no-change break with no empty cluster is a Lloyd fixpoint: the last update moved
      nothing, every sample is at a nearest returned centre, every returned centre is its mean. */
  lemma LloydFixpoint(d: Distance, norm: Norm, samples: seq<Vector>, dim: nat, rounds: seq<Round>, final: seq<Vector>)
    requires AllOfDim(samples, dim) && LloydRun(d, norm, samples, dim, rounds, final) && |rounds| >= 2
    requires rounds[|rounds| - 1].closest == rounds[|rounds| - 2].closest
    requires NoEmptyCluster(rounds[|rounds| - 1].closest, |final|)
    ensures final == rounds[|rounds| - 1].centers
    ensures AllNearest(d, samples, final, rounds[|rounds| - 1].closest)
    ensures forall c :: 0 <= c < |final| ==>
              IsCentre(norm, samples, rounds[|rounds| - 1].closest, c, dim, final[c])
  {
    var last := |rounds| - 1;
    assert LloydRound(d, norm, samples, dim, rounds[last - 1], CentersAfter(rounds, last - 1, final));
    assert LloydRound(d, norm, samples, dim, rounds[last], CentersAfter(rounds, last, final));
    forall c | 0 <= c < |final| ensures final[c] == rounds[last].centers[c] {
      assert final[c] == Mean(norm, samples, rounds[last].closest, c, dim);
    }
  }
}
