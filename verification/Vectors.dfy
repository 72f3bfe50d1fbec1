/** Vectors of reals: sums, multiples and inner products. */
module Vectors {

  type Vector = seq<real>

  function Add(u: Vector, v: Vector): (w: Vector)
    requires |u| == |v|
    ensures |w| == |u|
  {
    seq(|u|, i requires 0 <= i < |u| => u[i] + v[i])
  }

  function Sub(u: Vector, v: Vector): (w: Vector)
    requires |u| == |v|
    ensures |w| == |u|
  {
    seq(|u|, i requires 0 <= i < |u| => u[i] - v[i])
  }

  function Scale(x: real, u: Vector): (w: Vector)
    ensures |w| == |u|
  {
    seq(|u|, i requires 0 <= i < |u| => x * u[i])
  }

  function Zero(dim: nat): (v: Vector)
    ensures |v| == dim
  {
    seq(dim, _ => 0.0)
  }

  /** The inner product over the coordinates from `lo` to `hi`. */
  function DotRange(u: Vector, v: Vector, lo: nat, hi: nat): real
    requires lo <= hi <= |u| && hi <= |v|
  {
    if lo == hi then 0.0 else DotRange(u, v, lo, hi - 1) + u[hi - 1] * v[hi - 1]
  }

  function Dot(u: Vector, v: Vector): real
    requires |u| == |v|
  {
    DotRange(u, v, 0, |u|)
  }

  /** The squared L2 distance. */
  function DistanceSquared(u: Vector, v: Vector): real
    requires |u| == |v|
  {
    Dot(Sub(u, v), Sub(u, v))
  }

  // ----- Ranges -----

  lemma {:induction false} RangeSplit(u: Vector, v: Vector, lo: nat, mid: nat, hi: nat)
    requires lo <= mid <= hi <= |u| && hi <= |v|
    ensures DotRange(u, v, lo, hi) == DotRange(u, v, lo, mid) + DotRange(u, v, mid, hi)
  {
    if mid < hi {
      RangeSplit(u, v, lo, mid, hi - 1);
    }
  }

  /** The window of `n` coordinates from `lo` on is the one of `v` from `lo'` on. */
  ghost predicate SameWindow(u: Vector, lo: nat, v: Vector, lo': nat, n: nat) {
    lo + n <= |u| && lo' + n <= |v| && forall j :: lo <= j < lo + n ==> u[j] == v[j - lo + lo']
  }

  lemma {:induction false} RangeSame(u: Vector, v: Vector, lo: nat, u': Vector, v': Vector, lo': nat, n: nat)
    requires SameWindow(u, lo, u', lo', n) && SameWindow(v, lo, v', lo', n)
    ensures DotRange(u, v, lo, lo + n) == DotRange(u', v', lo', lo' + n)
  {
    if n > 0 {
      RangeSame(u, v, lo, u', v', lo', n - 1);
      var j := lo + n - 1;
      var x, y := u[j], v[j];
      assert u'[lo' + n - 1] == x && v'[lo' + n - 1] == y;
    }
  }

  lemma {:induction false} RangeZero(u: Vector, v: Vector, lo: nat, hi: nat)
    requires lo <= hi <= |u| && hi <= |v| && forall j :: lo <= j < hi ==> u[j] == 0.0
    ensures DotRange(u, v, lo, hi) == 0.0
  {
    if lo < hi {
      RangeZero(u, v, lo, hi - 1);
      ZeroTimes(u[hi - 1], v[hi - 1]);
    }
  }

  lemma ZeroTimes(x: real, y: real)
    requires x == 0.0
    ensures x * y == 0.0
  {
  }

  ghost predicate SameUpToSigns(u: Vector, v: Vector, u': Vector, v': Vector, hi: nat) {
    && hi <= |u| && hi <= |v| && hi <= |u'| && hi <= |v'|
    && forall i :: 0 <= i < hi ==> (u'[i] == u[i] && v'[i] == v[i]) || (u'[i] == -u[i] && v'[i] == -v[i])
  }

  lemma {:induction false} SignedDot(u: Vector, v: Vector, u': Vector, v': Vector, hi: nat)
    requires SameUpToSigns(u, v, u', v', hi)
    ensures DotRange(u', v', 0, hi) == DotRange(u, v, 0, hi)
  {
    if hi > 0 {
      SignedDot(u, v, u', v', hi - 1);
      SignedProduct(u[hi - 1], v[hi - 1], u'[hi - 1], v'[hi - 1]);
    }
  }

  lemma SignedProduct(a: real, b: real, a': real, b': real)
    requires (a' == a && b' == b) || (a' == -a && b' == -b)
    ensures a' * b' == a * b
  {
  }

  // ----- The inner product is symmetric and bilinear -----

  lemma {:induction false} RangeSymmetric(u: Vector, v: Vector, hi: nat)
    requires hi <= |u| && hi <= |v|
    ensures DotRange(u, v, 0, hi) == DotRange(v, u, 0, hi)
  {
    if hi > 0 {
      RangeSymmetric(u, v, hi - 1);
    }
  }

  lemma DotSymmetric(u: Vector, v: Vector)
    requires |u| == |v|
    ensures Dot(u, v) == Dot(v, u)
  {
    RangeSymmetric(u, v, |u|);
  }

  lemma {:induction false} RangeSub(u: Vector, v: Vector, w: Vector, hi: nat)
    requires |u| == |v| == |w| && hi <= |u|
    ensures DotRange(Sub(u, v), w, 0, hi) == DotRange(u, w, 0, hi) - DotRange(v, w, 0, hi)
  {
    if hi > 0 {
      RangeSub(u, v, w, hi - 1);
      Distribute(u[hi - 1], v[hi - 1], w[hi - 1]);
    }
  }

  lemma Distribute(x: real, y: real, z: real)
    ensures (x - y) * z == x * z - y * z
  {
  }

  lemma DotSub(u: Vector, v: Vector, w: Vector)
    requires |u| == |v| == |w|
    ensures Dot(Sub(u, v), w) == Dot(u, w) - Dot(v, w)
    ensures Dot(w, Sub(u, v)) == Dot(w, u) - Dot(w, v)
  {
    RangeSub(u, v, w, |u|);
    DotSymmetric(w, Sub(u, v));
    DotSymmetric(w, u);
    DotSymmetric(w, v);
  }

  lemma {:induction false} RangeAdd(u: Vector, v: Vector, w: Vector, hi: nat)
    requires |u| == |v| == |w| && hi <= |u|
    ensures DotRange(Add(u, v), w, 0, hi) == DotRange(u, w, 0, hi) + DotRange(v, w, 0, hi)
  {
    if hi > 0 {
      RangeAdd(u, v, w, hi - 1);
      Distribute(u[hi - 1], -v[hi - 1], w[hi - 1]);
    }
  }

  lemma DotAdd(u: Vector, v: Vector, w: Vector)
    requires |u| == |v| == |w|
    ensures Dot(Add(u, v), w) == Dot(u, w) + Dot(v, w)
  {
    RangeAdd(u, v, w, |u|);
  }

  // Products with an inner product carry its value as a parameter, so that equal products are equal terms.

  lemma {:induction false} RangeScale(x: real, u: Vector, v: Vector, hi: nat, d: real, xd: real)
    requires |u| == |v| && hi <= |u| && d == DotRange(u, v, 0, hi) && xd == x * d
    ensures DotRange(Scale(x, u), v, 0, hi) == xd
  {
    if hi > 0 {
      var a, b, rest := u[hi - 1], v[hi - 1], DotRange(u, v, 0, hi - 1);
      var xrest := x * rest;
      RangeScale(x, u, v, hi - 1, rest, xrest);
      ScaledSum(x, a, b, rest, d, xrest, xd);
    }
  }

  lemma ScaledSum(x: real, a: real, b: real, rest: real, sum: real, xrest: real, xsum: real)
    requires sum == rest + a * b && xrest == x * rest && xsum == x * sum
    ensures xrest + x * a * b == xsum
  {
  }

  lemma DotScale(x: real, u: Vector, v: Vector, d: real, xd: real)
    requires |u| == |v| && d == Dot(u, v) && xd == x * d
    ensures Dot(Scale(x, u), v) == xd && Dot(v, Scale(x, u)) == xd
  {
    RangeScale(x, u, v, |u|, d, xd);
    DotSymmetric(v, Scale(x, u));
  }

  lemma DotScaleBoth(x: real, u: Vector, v: Vector, d: real, xd: real, xxd: real)
    requires |u| == |v| && d == Dot(u, v) && xd == x * d && xxd == x * xd
    ensures Dot(Scale(x, u), Scale(x, v)) == xxd
  {
    DotSymmetric(u, v);
    DotScale(x, v, u, d, xd);
    DotScale(x, u, Scale(x, v), xd, xxd);
  }

  /** The law of cosines. */
  lemma DistanceExpands(u: Vector, v: Vector)
    requires |u| == |v|
    ensures DistanceSquared(u, v) == Dot(u, u) - 2.0 * Dot(u, v) + Dot(v, v)
  {
    DotSub(u, v, Sub(u, v));
    DotSub(u, v, u);
    DotSub(u, v, v);
    DotSymmetric(v, u);
  }

  lemma {:induction false} RangeSelf(u: Vector, hi: nat)
    requires hi <= |u|
    ensures DotRange(u, u, 0, hi) >= 0.0
  {
    if hi > 0 {
      RangeSelf(u, hi - 1);
      SquarePositive(u[hi - 1], u[hi - 1] * u[hi - 1]);
    }
  }

  lemma {:induction false} RangeSelfPositive(u: Vector, hi: nat, i: nat)
    requires i < hi <= |u| && u[i] != 0.0
    ensures DotRange(u, u, 0, hi) > 0.0
  {
    RangeSelf(u, hi - 1);
    SquarePositive(u[hi - 1], u[hi - 1] * u[hi - 1]);
    if i < hi - 1 {
      RangeSelfPositive(u, hi - 1, i);
    }
  }

  lemma SquarePositive(x: real, square: real)
    requires square == x * x
    ensures square >= 0.0 && (x != 0.0 ==> square > 0.0)
  {
    if x != 0.0 {
      ProductPositive(if x < 0.0 then -x else x, if x < 0.0 then -x else x, square);
    }
  }

  lemma ProductPositive(x: real, y: real, product: real)
    requires x > 0.0 && y > 0.0 && product == x * y
    ensures product > 0.0
  {
  }

  // ----- Square roots -----

  ghost predicate RootOf(y: real, x: real) {
    y >= 0.0 && y * y == x
  }

  ghost predicate IsSquareRoot(root: real -> real) {
    forall x :: x >= 0.0 ==> RootOf(root(x), x)
  }

  lemma RootPositive(root: real -> real, x: real)
    requires IsSquareRoot(root) && x > 0.0
    ensures root(x) > 0.0
  {
    var y := root(x);
    assert RootOf(y, x);
    if y == 0.0 {
      ZeroTimes(y, y);
    }
  }

  // ----- Multiples -----

  lemma ScaleScale(x: real, y: real, z: real, u: Vector)
    requires z == x * y
    ensures Scale(x, Scale(y, u)) == Scale(z, u)
  {
    forall i | 0 <= i < |u| ensures Scale(x, Scale(y, u))[i] == Scale(z, u)[i] {
      Regroup(x, y, u[i]);
    }
  }

  lemma Regroup(x: real, y: real, a: real)
    ensures x * (y * a) == x * y * a
  {
  }

  lemma ScaleOne(u: Vector)
    ensures Scale(1.0, u) == u
  {
  }
}
