/** The random rotation of RaBitQ (common/rabitq/rotator.cpp, common/rabitq/rotator.h).

    Four stages of sign flips, a normalised Hadamard transform on a window and, unless the padded
    dimension is a power of two, a Kac walk. Proved over the reals: the inverse undoes the rotation,
    and the rotation keeps inner products, so it keeps distances.
 */
module Rotator {
  import opened Bits
  import opened Vectors

  // ----- Butterflies -----

  /** Sums in the first half, differences in the second. */
  ghost function Butterfly(a: Vector, b: Vector): (v: Vector)
    requires |a| == |b|
    ensures |v| == |a| + |b|
  {
    seq(|a| + |b|, i requires 0 <= i < |a| + |b| => if i < |a| then a[i] + b[i] else a[i - |a|] - b[i - |a|])
  }

  lemma ButterflyScale(x: real, a: Vector, b: Vector)
    requires |a| == |b|
    ensures Butterfly(Scale(x, a), Scale(x, b)) == Scale(x, Butterfly(a, b))
  {
    var left, right := Butterfly(Scale(x, a), Scale(x, b)), Scale(x, Butterfly(a, b));
    forall i | 0 <= i < |left| ensures left[i] == right[i] {
      var j := if i < |a| then i else i - |a|;
      FactorOut(x, a[j], b[j]);
    }
  }

  lemma FactorOut(x: real, a: real, b: real)
    ensures x * a + x * b == x * (a + b) && x * a - x * b == x * (a - b)
  {
  }

  lemma ButterflyAdd(a: Vector, b: Vector, c: Vector, d: Vector)
    requires |a| == |b| == |c| == |d|
    ensures Butterfly(Add(a, c), Add(b, d)) == Add(Butterfly(a, b), Butterfly(c, d))
    ensures Butterfly(Sub(a, c), Sub(b, d)) == Sub(Butterfly(a, b), Butterfly(c, d))
  {
  }

  lemma ParallelogramLaw(x: real, y: real, p: real, q: real)
    ensures (x + y) * (p + q) + (x - y) * (p - q) == 2.0 * (x * p) + 2.0 * (y * q)
  {
  }

  lemma {:induction false} ButterflyPairs(a: Vector, b: Vector, c: Vector, d: Vector, n: nat)
    requires |a| == |b| == |c| == |d| && n <= |a|
    ensures DotRange(Butterfly(a, b), Butterfly(c, d), 0, n) + DotRange(Butterfly(a, b), Butterfly(c, d), |a|, |a| + n)
         == 2.0 * DotRange(a, c, 0, n) + 2.0 * DotRange(b, d, 0, n)
  {
    if n > 0 {
      ButterflyPairs(a, b, c, d, n - 1);
      ParallelogramLaw(a[n - 1], b[n - 1], c[n - 1], d[n - 1]);
    }
  }

  lemma ButterflyDot(a: Vector, b: Vector, c: Vector, d: Vector)
    requires |a| == |b| == |c| == |d|
    ensures Dot(Butterfly(a, b), Butterfly(c, d)) == 2.0 * Dot(a, c) + 2.0 * Dot(b, d)
  {
    ButterflyPairs(a, b, c, d, |a|);
    RangeSplit(Butterfly(a, b), Butterfly(c, d), 0, |a|, |a| + |b|);
  }

  // ----- The Kac walk -----

  ghost function KacWalk(v: Vector): (w: Vector)
    requires |v| % 2 == 0
    ensures |w| == |v|
  {
    Butterfly(v[..|v| / 2], v[|v| / 2..])
  }

  lemma KacTwice(v: Vector)
    requires |v| % 2 == 0
    ensures KacWalk(KacWalk(v)) == Scale(2.0, v)
  {
    var h, w, ww := |v| / 2, KacWalk(v), KacWalk(KacWalk(v));
    forall i | 0 <= i < |v| ensures ww[i] == v[i] + v[i] {
      var j := if i < h then i else i - h;
      assert w[..h][j] == v[j] + v[h + j] && w[h..][j] == w[h + j] == v[j] - v[h + j];
    }
  }

  lemma KacDot(u: Vector, v: Vector)
    requires |u| == |v| && |v| % 2 == 0
    ensures Dot(KacWalk(u), KacWalk(v)) == 2.0 * Dot(u, v)
  {
    var h := |v| / 2;
    ButterflyDot(u[..h], u[h..], v[..h], v[h..]);
    RangeSame(u, v, 0, u[..h], v[..h], 0, h);
    RangeSame(u, v, h, u[h..], v[h..], 0, h);
    RangeSplit(u, v, 0, h, |v|);
  }

  lemma KacScale(x: real, v: Vector)
    requires |v| % 2 == 0
    ensures KacWalk(Scale(x, v)) == Scale(x, KacWalk(v))
  {
    var h := |v| / 2;
    ScaleSlices(x, v, h);
    ButterflyScale(x, v[..h], v[h..]);
  }

  lemma ScaleSlices(x: real, v: Vector, h: nat)
    requires h <= |v|
    ensures Scale(x, v)[..h] == Scale(x, v[..h]) && Scale(x, v)[h..] == Scale(x, v[h..])
  {
    forall i | 0 <= i < h ensures Scale(x, v)[..h][i] == Scale(x, v[..h])[i] {
      var y := v[i];
      assert v[..h][i] == y;
    }
    forall i | 0 <= i < |v| - h ensures Scale(x, v)[h..][i] == Scale(x, v[h..])[i] {
      var y := v[h + i];
      assert v[h..][i] == y;
    }
  }

  // ----- The fast Hadamard transform -----

  /** The transform of the `2^k` coordinates of `v` from `lo` on. */
  ghost function Hadamard(k: nat, v: Vector, lo: nat): (w: Vector)
    requires lo + Pow2(k) <= |v|
    ensures |w| == Pow2(k)
    decreases k
  {
    if k == 0 then [v[lo]]
    else Butterfly(Hadamard(k - 1, v, lo), Hadamard(k - 1, v, lo + Pow2(k - 1)))
  }

  // The transform is a matrix of signs: entry (i, j) is -1 to the number of bits that i and j have in common.

  ghost function Common(i: nat, j: nat): nat {
    if i == 0 then 0 else (i % 2) * (j % 2) + Common(i / 2, j / 2)
  }

  ghost function Signed(i: nat, j: nat, x: real): real {
    if Common(i, j) % 2 == 0 then x else -x
  }

  /** Row `i` of the matrix times the first `n` coordinates of the window. */
  ghost function MatrixRow(i: nat, v: Vector, lo: nat, n: nat): real
    requires lo + n <= |v|
  {
    if n == 0 then 0.0 else MatrixRow(i, v, lo, n - 1) + Signed(i, n - 1, v[lo + n - 1])
  }

  /** A leading bit counts if both have it. */
  lemma {:induction false} CommonLead(k: nat, i: nat, j: nat)
    requires i < Pow2(k) && j < Pow2(k)
    ensures Common(i, Pow2(k) + j) == Common(i, j)
    ensures Common(Pow2(k) + i, j) == Common(i, j)
    ensures Common(Pow2(k) + i, Pow2(k) + j) == Common(i, j) + 1
  {
    if k > 0 {
      CommonLead(k - 1, i / 2, j / 2);
      assert (Pow2(k) + j) / 2 == Pow2(k - 1) + j / 2 && (Pow2(k) + j) % 2 == j % 2;
      assert (Pow2(k) + i) / 2 == Pow2(k - 1) + i / 2 && (Pow2(k) + i) % 2 == i % 2;
    }
  }

  lemma {:induction false} LowerRow(k: nat, h: nat, i: nat, v: Vector, lo: nat, n: nat)
    requires h == Pow2(k) && i < h && n <= h && lo + n <= |v|
    ensures MatrixRow(h + i, v, lo, n) == MatrixRow(i, v, lo, n)
  {
    if n > 0 {
      LowerRow(k, h, i, v, lo, n - 1);
      CommonLead(k, i, n - 1);
    }
  }

  lemma SignedLead(k: nat, h: nat, i: nat, j: nat, x: real)
    requires h == Pow2(k) && i < h && j < h
    ensures Signed(i, h + j, x) == Signed(i, j, x) && Signed(h + i, h + j, x) == -Signed(i, j, x)
  {
    CommonLead(k, i, j);
  }

  /** The right half of a row repeats the left half, negated in the lower rows. */
  lemma {:induction false} RightHalf(k: nat, h: nat, i: nat, v: Vector, lo: nat, n: nat)
    requires h == Pow2(k) && i < h && n <= h && lo + h + n <= |v|
    ensures MatrixRow(i, v, lo, h + n) == MatrixRow(i, v, lo, h) + MatrixRow(i, v, lo + h, n)
    ensures MatrixRow(h + i, v, lo, h + n) == MatrixRow(i, v, lo, h) - MatrixRow(i, v, lo + h, n)
  {
    if n == 0 {
      LowerRow(k, h, i, v, lo, h);
    } else {
      RightHalf(k, h, i, v, lo, n - 1);
      var x := v[lo + h + (n - 1)];
      SignedLead(k, h, i, n - 1, x);
      assert v[lo + (h + n) - 1] == x;
      assert MatrixRow(i, v, lo + h, n) == MatrixRow(i, v, lo + h, n - 1) + Signed(i, n - 1, x);
      assert h + n - 1 == h + (n - 1);
    }
  }

  /** `w` is the matrix times the window. */
  ghost predicate IsProduct(w: Vector, v: Vector, lo: nat, n: nat)
    requires lo + n <= |v|
  {
    |w| == n && forall i :: 0 <= i < n ==> w[i] == MatrixRow(i, v, lo, n)
  }

  lemma ProductStep(k: nat, h: nat, n: nat, v: Vector, lo: nat, p: Vector, q: Vector)
    requires h == Pow2(k) && n == 2 * h && lo + n <= |v| && IsProduct(p, v, lo, h) && IsProduct(q, v, lo + h, h)
    ensures IsProduct(Butterfly(p, q), v, lo, n)
  {
    forall i | 0 <= i < n ensures Butterfly(p, q)[i] == MatrixRow(i, v, lo, n) {
      var row := if i < h then i else i - h;
      RightHalf(k, h, row, v, lo, h);
      assert p[row] == MatrixRow(row, v, lo, h) && q[row] == MatrixRow(row, v, lo + h, h);
    }
  }

  /** The fast transform is the product with that matrix. */
  lemma {:induction false} HadamardIsMatrix(k: nat, n: nat, v: Vector, lo: nat)
    requires n == Pow2(k) && lo + n <= |v|
    ensures IsProduct(Hadamard(k, v, lo), v, lo, n)
    decreases k, 0
  {
    if k == 0 {
      PointProduct(v, lo);
    } else {
      HadamardProduct(k - 1, Pow2(k - 1), n, v, lo);
    }
  }

  lemma PointProduct(v: Vector, lo: nat)
    requires lo < |v|
    ensures IsProduct([v[lo]], v, lo, 1)
  {
    assert Common(0, 0) == 0;
  }

  lemma HadamardProduct(k: nat, h: nat, n: nat, v: Vector, lo: nat)
    requires h == Pow2(k) && n == 2 * h && lo + n <= |v|
    ensures IsProduct(Butterfly(Hadamard(k, v, lo), Hadamard(k, v, lo + h)), v, lo, n)
    decreases k, 1
  {
    HadamardIsMatrix(k, h, v, lo);
    HadamardIsMatrix(k, h, v, lo + h);
    ProductStep(k, h, n, v, lo, Hadamard(k, v, lo), Hadamard(k, v, lo + h));
  }

  /** Only the window counts. */
  lemma {:induction false} HadamardLocal(k: nat, u: Vector, lo: nat, v: Vector, lo': nat)
    requires SameWindow(u, lo, v, lo', Pow2(k))
    ensures Hadamard(k, u, lo) == Hadamard(k, v, lo')
  {
    if k > 0 {
      HadamardLocal(k - 1, u, lo, v, lo');
      HadamardLocal(k - 1, u, lo + Pow2(k - 1), v, lo' + Pow2(k - 1));
    }
  }

  lemma ScaledPoint(x: real, v: Vector, lo: nat)
    requires lo < |v|
    ensures [Scale(x, v)[lo]] == Scale(x, [v[lo]])
  {
    var y := v[lo];
    assert Scale(x, v)[lo] == x * y && Scale(x, [y])[0] == x * y;
  }

  lemma {:induction false} HadamardScale(k: nat, x: real, v: Vector, lo: nat)
    requires lo + Pow2(k) <= |v|
    ensures Hadamard(k, Scale(x, v), lo) == Scale(x, Hadamard(k, v, lo))
    decreases k, 0
  {
    if k == 0 {
      ScaledPoint(x, v, lo);
    } else {
      HadamardScaleStep(k - 1, Pow2(k - 1), x, v, lo);
    }
  }

  lemma HadamardScaleStep(k: nat, h: nat, x: real, v: Vector, lo: nat)
    requires h == Pow2(k) && lo + 2 * h <= |v|
    ensures Hadamard(k + 1, Scale(x, v), lo) == Scale(x, Hadamard(k + 1, v, lo))
    decreases k, 1
  {
    HadamardScale(k, x, v, lo);
    HadamardScale(k, x, v, lo + h);
    ButterflyScale(x, Hadamard(k, v, lo), Hadamard(k, v, lo + h));
  }

  lemma {:induction false} HadamardAdd(k: nat, u: Vector, v: Vector, lo: nat)
    requires |u| == |v| && lo + Pow2(k) <= |v|
    ensures Hadamard(k, Add(u, v), lo) == Add(Hadamard(k, u, lo), Hadamard(k, v, lo))
    ensures Hadamard(k, Sub(u, v), lo) == Sub(Hadamard(k, u, lo), Hadamard(k, v, lo))
  {
    if k > 0 {
      var hi := lo + Pow2(k - 1);
      HadamardAdd(k - 1, u, v, lo);
      HadamardAdd(k - 1, u, v, hi);
      ButterflyAdd(Hadamard(k - 1, u, lo), Hadamard(k - 1, u, hi), Hadamard(k - 1, v, lo), Hadamard(k - 1, v, hi));
    }
  }

  lemma HadamardOfButterfly(k: nat, a: Vector, b: Vector)
    requires |a| == |b| == Pow2(k)
    ensures Hadamard(k + 1, Butterfly(a, b), 0) == Butterfly(Hadamard(k, Add(a, b), 0), Hadamard(k, Sub(a, b), 0))
  {
    HadamardLocal(k, Butterfly(a, b), 0, Add(a, b), 0);
    HadamardLocal(k, Butterfly(a, b), Pow2(k), Sub(a, b), 0);
  }

  lemma HadamardTwiceStep(k: nat, v: Vector, lo: nat, p: Vector, q: Vector)
    requires lo + Pow2(k + 1) <= |v| && |p| == |q| == Pow2(k)
    requires Hadamard(k, Hadamard(k, v, lo), 0) == p && Hadamard(k, Hadamard(k, v, lo + Pow2(k)), 0) == q
    ensures Hadamard(k + 1, Hadamard(k + 1, v, lo), 0) == Butterfly(Add(p, q), Sub(p, q))
  {
    var a, b := Hadamard(k, v, lo), Hadamard(k, v, lo + Pow2(k));
    HadamardOfButterfly(k, a, b);
    HadamardAdd(k, a, b, 0);
  }

  /** The transform is its own inverse up to its size. */
  lemma {:induction false} HadamardTwice(k: nat, v: Vector, lo: nat, n: real)
    requires lo + Pow2(k) <= |v| && n == Pow2(k) as real
    ensures SameWindow(Hadamard(k, Hadamard(k, v, lo), 0), 0, Scale(n, v), lo, Pow2(k))
  {
    if k > 0 {
      var h, m := Pow2(k - 1), Pow2(k - 1) as real;
      var p, q := Hadamard(k - 1, Hadamard(k - 1, v, lo), 0), Hadamard(k - 1, Hadamard(k - 1, v, lo + h), 0);
      HadamardTwice(k - 1, v, lo, m);
      HadamardTwice(k - 1, v, lo + h, m);
      HadamardTwiceStep(k - 1, v, lo, p, q);
      DoubledHalves(v, lo, h, m, n, p, q);
    }
  }

  lemma DoubledHalves(v: Vector, lo: nat, h: nat, m: real, n: real, p: Vector, q: Vector)
    requires |p| == |q| == h && lo + 2 * h <= |v| && n == 2.0 * m
    requires SameWindow(p, 0, Scale(m, v), lo, h) && SameWindow(q, 0, Scale(m, v), lo + h, h)
    ensures SameWindow(Butterfly(Add(p, q), Sub(p, q)), 0, Scale(n, v), lo, 2 * h)
  {
    var w := Butterfly(Add(p, q), Sub(p, q));
    forall j | 0 <= j < 2 * h ensures w[j] == Scale(n, v)[j + lo] {
      var x := if j < h then p[j] else q[j - h];
      assert w[j] == x + x;
      TwiceTimes(m, n, v[j + lo], x);
    }
  }

  lemma TwiceTimes(m: real, n: real, y: real, x: real)
    requires n == 2.0 * m && x == m * y
    ensures n * y == x + x
  {
  }

  /** `2^k` times `d`, by doubling. */
  ghost function Doubled(k: nat, d: real): real {
    if k == 0 then d else Doubled(k - 1, d) + Doubled(k - 1, d)
  }

  lemma {:induction false} DoubledSum(k: nat, d: real, e: real, f: real)
    requires f == d + e
    ensures Doubled(k, f) == Doubled(k, d) + Doubled(k, e)
  {
    if k > 0 {
      DoubledSum(k - 1, d, e, f);
    }
  }

  lemma {:induction false} DoubledIsProduct(k: nat, d: real, n: real, nd: real)
    requires n == Pow2(k) as real && nd == n * d
    ensures Doubled(k, d) == nd
  {
    if k > 0 {
      var m := Pow2(k - 1) as real;
      DoubledIsProduct(k - 1, d, m, m * d);
      TwiceTimes(m, n, d, m * d);
    }
  }

  /** And it stretches inner products by its size. */
  lemma {:induction false} HadamardDot(k: nat, u: Vector, v: Vector, lo: nat)
    requires |u| == |v| && lo + Pow2(k) <= |v|
    ensures Dot(Hadamard(k, u, lo), Hadamard(k, v, lo)) == Doubled(k, DotRange(u, v, lo, lo + Pow2(k)))
  {
    if k == 0 {
      RangeSame([u[lo]], [v[lo]], 0, u, v, lo, 1);
    } else {
      var mid := lo + Pow2(k - 1);
      HadamardDot(k - 1, u, v, lo);
      HadamardDot(k - 1, u, v, mid);
      HadamardDotStep(k - 1, u, v, lo, mid);
      DoubledRange(k - 1, u, v, lo, mid, lo + Pow2(k));
    }
  }

  lemma DoubledRange(k: nat, u: Vector, v: Vector, lo: nat, mid: nat, hi: nat)
    requires lo <= mid <= hi <= |u| == |v|
    ensures Doubled(k + 1, DotRange(u, v, lo, hi)) ==
            2.0 * Doubled(k, DotRange(u, v, lo, mid)) + 2.0 * Doubled(k, DotRange(u, v, mid, hi))
  {
    RangeSplit(u, v, lo, mid, hi);
    DoubledSum(k, DotRange(u, v, lo, mid), DotRange(u, v, mid, hi), DotRange(u, v, lo, hi));
  }

  lemma HadamardDotStep(k: nat, u: Vector, v: Vector, lo: nat, mid: nat)
    requires |u| == |v| && lo + Pow2(k + 1) <= |v| && mid == lo + Pow2(k)
    ensures Dot(Hadamard(k + 1, u, lo), Hadamard(k + 1, v, lo)) ==
            2.0 * Dot(Hadamard(k, u, lo), Hadamard(k, v, lo)) + 2.0 * Dot(Hadamard(k, u, mid), Hadamard(k, v, mid))
  {
    ButterflyDot(Hadamard(k, u, lo), Hadamard(k, u, mid), Hadamard(k, v, lo), Hadamard(k, v, mid));
  }

  // ----- One stage -----

  datatype Params = Params(dim: nat, padded: nat, log: nat, fac: real, flip: seq<nat>)

  /** The float `1/sqrt(trunc)` is a real whose square times `trunc` is one. */
  ghost predicate UnitFactor(fac: real, n: real) {
    fac * (fac * n) == 1.0
  }

  /** What the constructor sets up. */
  ghost predicate Valid(r: Params) {
    && 1 <= r.dim <= r.padded && r.padded % 64 == 0 && r.padded % 2 == 0
    && Pow2(r.log) <= r.dim < 2 * Pow2(r.log) && UnitFactor(r.fac, Pow2(r.log) as real)
    && |r.flip| == 4 * r.padded / 8
  }

  /** The bytes as one string of bits, least significant first. */
  ghost predicate BitOfBytes(bytes: seq<nat>, n: nat)
    requires n / 8 < |bytes|
  {
    Bit(bytes[n / 8], n % 8) == 1
  }

  /** The flip bytes are four masks of `padded` bits, one after the other. */
  ghost predicate Flipped(r: Params, stage: nat, i: nat)
    requires |r.flip| == 4 * r.padded / 8 && r.padded % 64 == 0 && stage < 4 && i < r.padded
  {
    MaskBit(r.padded, stage, i);
    BitOfBytes(r.flip, stage * r.padded + i)
  }

  lemma MaskBit(padded: nat, stage: nat, i: nat)
    requires padded % 64 == 0 && stage < 4 && i < padded
    ensures (stage * padded + i) / 8 == stage * (padded / 8) + i / 8 < 4 * padded / 8
    ensures (stage * padded + i) % 8 == i % 8
  {
    var bytes := padded / 8;
    var mask := stage * bytes;
    assert padded == bytes * 8;
    assert stage * padded == 8 * mask by { MulAssoc(stage, bytes, 8); }
    EighthOf(mask, i);
    MulMono(stage, 3, bytes);
    MaskRange(padded, bytes, mask, i);
  }

  lemma MaskRange(padded: nat, bytes: nat, mask: nat, i: nat)
    requires padded == 8 * bytes && mask <= 3 * bytes && i < padded
    ensures mask + i / 8 < 4 * padded / 8
  {
  }

  lemma EighthOf(a: nat, i: nat)
    ensures (8 * a + i) / 8 == a + i / 8 && (8 * a + i) % 8 == i % 8
  {
  }

  ghost function Flip(r: Params, stage: nat, v: Vector): (w: Vector)
    requires Valid(r) && stage < 4 && |v| == r.padded
    ensures |w| == |v|
  {
    seq(|v|, i requires 0 <= i < |v| => if Flipped(r, stage, i) then -v[i] else v[i])
  }

  lemma FlipTwice(r: Params, stage: nat, v: Vector)
    requires Valid(r) && stage < 4 && |v| == r.padded
    ensures Flip(r, stage, Flip(r, stage, v)) == v
  {
  }

  lemma FlipScale(r: Params, stage: nat, x: real, v: Vector)
    requires Valid(r) && stage < 4 && |v| == r.padded
    ensures Flip(r, stage, Scale(x, v)) == Scale(x, Flip(r, stage, v))
  {
    var left, right := Flip(r, stage, Scale(x, v)), Scale(x, Flip(r, stage, v));
    forall i | 0 <= i < |v| ensures left[i] == right[i] {
      Negate(x, v[i]);
    }
  }

  lemma Negate(x: real, a: real)
    ensures x * -a == -(x * a)
  {
  }

  lemma FlipDot(r: Params, stage: nat, u: Vector, v: Vector)
    requires Valid(r) && stage < 4 && |u| == |v| == r.padded
    ensures Dot(Flip(r, stage, u), Flip(r, stage, v)) == Dot(u, v)
  {
    SignedDot(u, v, Flip(r, stage, u), Flip(r, stage, v), |u|);
  }

  // ----- Windows -----

  /** `v` with the coordinates from `lo` on replaced by `w`. */
  ghost function Put(v: Vector, lo: nat, w: Vector): (u: Vector)
    requires lo + |w| <= |v|
    ensures |u| == |v|
  {
    seq(|v|, i requires 0 <= i < |v| => if lo <= i < lo + |w| then w[i - lo] else v[i])
  }

  lemma PutBack(v: Vector, lo: nat, w: Vector, w': Vector)
    requires lo + |w| <= |v| && |w| == |w'| && SameWindow(w', 0, v, lo, |w|)
    ensures Put(Put(v, lo, w), lo, w') == v
  {
  }

  lemma PutScale(x: real, v: Vector, lo: nat, w: Vector)
    requires lo + |w| <= |v|
    ensures Put(Scale(x, v), lo, Scale(x, w)) == Scale(x, Put(v, lo, w))
  {
    var left, right := Put(Scale(x, v), lo, Scale(x, w)), Scale(x, Put(v, lo, w));
    forall i | 0 <= i < |v| ensures left[i] == right[i] {
      var y := if lo <= i < lo + |w| then w[i - lo] else v[i];
      assert left[i] == x * y;
    }
  }

  /** Replacing windows of equal inner product keeps the inner product. */
  lemma PutDot(u: Vector, v: Vector, lo: nat, a: Vector, b: Vector)
    requires |u| == |v| && |a| == |b| && lo + |a| <= |v| && Dot(a, b) == DotRange(u, v, lo, lo + |a|)
    ensures Dot(Put(u, lo, a), Put(v, lo, b)) == Dot(u, v)
  {
    var hi, u', v' := lo + |a|, Put(u, lo, a), Put(v, lo, b);
    PutInside(u, v, lo, a, b, u', v');
    PutOutside(u, v, lo, a, b, u', v', 0, lo);
    PutOutside(u, v, lo, a, b, u', v', hi, |v|);
    RangeThree(u, v, lo, hi);
    RangeThree(u', v', lo, hi);
  }

  lemma PutInside(u: Vector, v: Vector, lo: nat, a: Vector, b: Vector, u': Vector, v': Vector)
    requires |u| == |v| && |a| == |b| && lo + |a| <= |v| && u' == Put(u, lo, a) && v' == Put(v, lo, b)
    ensures DotRange(u', v', lo, lo + |a|) == Dot(a, b)
  {
    RangeSame(u', v', lo, a, b, 0, |a|);
  }

  lemma PutOutside(u: Vector, v: Vector, lo: nat, a: Vector, b: Vector, u': Vector, v': Vector, from: nat, to: nat)
    requires |u| == |v| && |a| == |b| && lo + |a| <= |v| && u' == Put(u, lo, a) && v' == Put(v, lo, b)
    requires from <= to <= |v| && (to <= lo || lo + |a| <= from)
    ensures DotRange(u', v', from, to) == DotRange(u, v, from, to)
  {
    RangeSame(u', v', from, u, v, from, to - from);
  }

  lemma RangeThree(u: Vector, v: Vector, lo: nat, hi: nat)
    requires lo <= hi <= |u| == |v|
    ensures Dot(u, v) == DotRange(u, v, 0, lo) + DotRange(u, v, lo, hi) + DotRange(u, v, hi, |v|)
  {
    RangeSplit(u, v, 0, lo, |v|);
    RangeSplit(u, v, lo, hi, |v|);
  }

  /** The normalised transform of a window of `2^k` coordinates; the others stay. */
  ghost function FhtAt(k: nat, fac: real, v: Vector, lo: nat): (w: Vector)
    requires lo + Pow2(k) <= |v|
    ensures |w| == |v|
  {
    Put(v, lo, Scale(fac, Hadamard(k, v, lo)))
  }

  lemma UnitProduct(fac: real, n: real, d: real, e: real, f: real, g: real)
    requires fac * (fac * n) == 1.0 && e == n * d && f == fac * e && g == fac * f
    ensures g == d
  {
    Regroup(fac, n, d);
    Regroup(fac, fac * n, d);
  }

  /** Transforming a window twice gives it back. */
  lemma FhtTwice(k: nat, fac: real, v: Vector, lo: nat)
    requires lo + Pow2(k) <= |v| && UnitFactor(fac, Pow2(k) as real)
    ensures FhtAt(k, fac, FhtAt(k, fac, v, lo), lo) == v
  {
    var h := Hadamard(k, v, lo);
    TransformPut(k, fac, v, lo, h);
    HadamardTwice(k, v, lo, Pow2(k) as real);
    UnitWindow(fac, Pow2(k) as real, v, lo, Hadamard(k, h, 0));
    PutBack(v, lo, Scale(fac, h), Scale(fac, Scale(fac, Hadamard(k, h, 0))));
  }

  /** The transform of a vector whose window is `fac` times `h`. */
  lemma TransformPut(k: nat, fac: real, v: Vector, lo: nat, h: Vector)
    requires lo + Pow2(k) <= |v| && |h| == Pow2(k)
    ensures Hadamard(k, Put(v, lo, Scale(fac, h)), lo) == Scale(fac, Hadamard(k, h, 0))
  {
    HadamardLocal(k, Put(v, lo, Scale(fac, h)), lo, Scale(fac, h), 0);
    HadamardScale(k, fac, h, 0);
  }

  lemma UnitWindow(fac: real, n: real, v: Vector, lo: nat, h: Vector)
    requires UnitFactor(fac, n) && SameWindow(h, 0, Scale(n, v), lo, |h|)
    ensures SameWindow(Scale(fac, Scale(fac, h)), 0, v, lo, |h|)
  {
    var w := Scale(fac, Scale(fac, h));
    forall j | 0 <= j < |h| ensures w[j] == v[j + lo] {
      var d, e, f := v[j + lo], h[j], fac * h[j];
      assert e == n * d;
      UnitProduct(fac, n, d, e, f, fac * f);
    }
  }

  lemma WindowDot(k: nat, fac: real, u: Vector, v: Vector, lo: nat, d: real)
    requires |u| == |v| && lo + Pow2(k) <= |v| && UnitFactor(fac, Pow2(k) as real)
    requires d == DotRange(u, v, lo, lo + Pow2(k))
    ensures Dot(Scale(fac, Hadamard(k, u, lo)), Scale(fac, Hadamard(k, v, lo))) == d
  {
    var n := Pow2(k) as real;
    var e := n * d;
    var f := fac * e;
    var g := fac * f;
    UnitProduct(fac, n, d, e, f, g);
    HadamardDot(k, u, v, lo);
    DoubledIsProduct(k, d, n, e);
    DotScaleBoth(fac, Hadamard(k, u, lo), Hadamard(k, v, lo), e, f, g);
  }

  lemma FhtDot(k: nat, fac: real, u: Vector, v: Vector, lo: nat)
    requires |u| == |v| && lo + Pow2(k) <= |v| && UnitFactor(fac, Pow2(k) as real)
    ensures Dot(FhtAt(k, fac, u, lo), FhtAt(k, fac, v, lo)) == Dot(u, v)
  {
    WindowDot(k, fac, u, v, lo, DotRange(u, v, lo, lo + Pow2(k)));
    PutDot(u, v, lo, Scale(fac, Hadamard(k, u, lo)), Scale(fac, Hadamard(k, v, lo)));
  }

  lemma FhtScale(k: nat, fac: real, x: real, v: Vector, lo: nat)
    requires lo + Pow2(k) <= |v|
    ensures FhtAt(k, fac, Scale(x, v), lo) == Scale(x, FhtAt(k, fac, v, lo))
  {
    HadamardScale(k, x, v, lo);
    SwapScales(fac, x, Hadamard(k, v, lo));
    PutScale(x, v, lo, Scale(fac, Hadamard(k, v, lo)));
  }

  lemma SwapScales(x: real, y: real, u: Vector)
    ensures Scale(x, Scale(y, u)) == Scale(y, Scale(x, u))
  {
    ScaleScale(x, y, x * y, u);
    ScaleScale(y, x, x * y, u);
  }

  // ----- The stages -----

  /** A padded dimension that is no power of two needs the walks. */
  ghost predicate Walks(r: Params) {
    Pow2(r.log) != r.padded
  }

  /** Odd stages transform the last `trunc` coordinates, even ones the first. */
  ghost function WindowStart(r: Params, stage: nat): nat {
    if stage % 2 == 1 && Pow2(r.log) < r.padded then r.padded - Pow2(r.log) else 0
  }

  ghost function Fht(r: Params, stage: nat, v: Vector): (w: Vector)
    requires Valid(r) && |v| == r.padded
    ensures |w| == |v|
  {
    FhtAt(r.log, r.fac, v, WindowStart(r, stage))
  }

  ghost function Walk(r: Params, v: Vector): (w: Vector)
    requires Valid(r) && |v| == r.padded
    ensures |w| == |v|
  {
    if Walks(r) then KacWalk(v) else v
  }

  ghost function Stage(r: Params, stage: nat, v: Vector): (w: Vector)
    requires Valid(r) && stage < 4 && |v| == r.padded
    ensures |w| == |v|
  {
    Walk(r, Fht(r, stage, Flip(r, stage, v)))
  }

  ghost function Unstage(r: Params, stage: nat, v: Vector): (w: Vector)
    requires Valid(r) && stage < 4 && |v| == r.padded
    ensures |w| == |v|
  {
    Flip(r, stage, Fht(r, stage, Walk(r, v)))
  }

  /** What one stage and its inverse leave behind. */
  ghost function Gain(r: Params): real { if Walks(r) then 2.0 else 1.0 }

  lemma WalkTwice(r: Params, v: Vector)
    requires Valid(r) && |v| == r.padded
    ensures Walk(r, Walk(r, v)) == Scale(Gain(r), v)
  {
    if Walks(r) {
      KacTwice(v);
    } else {
      ScaleOne(v);
    }
  }

  lemma WalkScale(r: Params, x: real, v: Vector)
    requires Valid(r) && |v| == r.padded
    ensures Walk(r, Scale(x, v)) == Scale(x, Walk(r, v))
  {
    if Walks(r) {
      KacScale(x, v);
    }
  }

  lemma WalkDot(r: Params, u: Vector, v: Vector)
    requires Valid(r) && |u| == |v| == r.padded
    ensures Dot(Walk(r, u), Walk(r, v)) == Gain(r) * Dot(u, v)
  {
    if Walks(r) {
      KacDot(u, v);
    }
  }

  /** The unscaled inverse of a stage leaves the gain. */
  lemma UnstageUndoesStage(r: Params, stage: nat, v: Vector, g: real)
    requires Valid(r) && stage < 4 && |v| == r.padded && g == Gain(r)
    ensures Unstage(r, stage, Stage(r, stage, v)) == Scale(g, v)
  {
    var lo := WindowStart(r, stage);
    var u := Flip(r, stage, v);
    var w := Fht(r, stage, u);
    WalkTwice(r, w);
    FhtScale(r.log, r.fac, g, w, lo);
    FhtTwice(r.log, r.fac, u, lo);
    FlipScale(r, stage, g, u);
    FlipTwice(r, stage, v);
  }

  lemma UnstageScale(r: Params, stage: nat, x: real, v: Vector)
    requires Valid(r) && stage < 4 && |v| == r.padded
    ensures Unstage(r, stage, Scale(x, v)) == Scale(x, Unstage(r, stage, v))
  {
    WalkScale(r, x, v);
    FhtScale(r.log, r.fac, x, Walk(r, v), WindowStart(r, stage));
    FlipScale(r, stage, x, Fht(r, stage, Walk(r, v)));
  }

  /** And the other way round. */
  lemma StageUndoesUnstage(r: Params, stage: nat, v: Vector, g: real)
    requires Valid(r) && stage < 4 && |v| == r.padded && g == Gain(r)
    ensures Stage(r, stage, Unstage(r, stage, v)) == Scale(g, v)
  {
    var w := Walk(r, v);
    FlipTwice(r, stage, Fht(r, stage, w));
    FhtTwice(r.log, r.fac, w, WindowStart(r, stage));
    WalkTwice(r, v);
  }

  lemma StageScale(r: Params, stage: nat, x: real, v: Vector)
    requires Valid(r) && stage < 4 && |v| == r.padded
    ensures Stage(r, stage, Scale(x, v)) == Scale(x, Stage(r, stage, v))
  {
    FlipScale(r, stage, x, v);
    FhtScale(r.log, r.fac, x, Flip(r, stage, v), WindowStart(r, stage));
    WalkScale(r, x, Fht(r, stage, Flip(r, stage, v)));
  }

  lemma StageDot(r: Params, stage: nat, u: Vector, v: Vector)
    requires Valid(r) && stage < 4 && |u| == |v| == r.padded
    ensures Dot(Stage(r, stage, u), Stage(r, stage, v)) == Gain(r) * Dot(u, v)
  {
    var fu, fv := Flip(r, stage, u), Flip(r, stage, v);
    FlipDot(r, stage, u, v);
    FhtDot(r.log, r.fac, fu, fv, WindowStart(r, stage));
    WalkDot(r, Fht(r, stage, fu), Fht(r, stage, fv));
  }

  // ----- The rotation -----

  ghost function Pad(r: Params, x: Vector): (v: Vector)
    requires Valid(r) && |x| == r.dim
    ensures |v| == r.padded
  {
    x + Zero(r.padded - r.dim)
  }

  ghost function Stages(r: Params, v: Vector): (w: Vector)
    requires Valid(r) && |v| == r.padded
    ensures |w| == |v|
  {
    Stage(r, 3, Stage(r, 2, Stage(r, 1, Stage(r, 0, v))))
  }

  ghost function Unstages(r: Params, v: Vector): (w: Vector)
    requires Valid(r) && |v| == r.padded
    ensures |w| == |v|
  {
    Unstage(r, 0, Unstage(r, 1, Unstage(r, 2, Unstage(r, 3, v))))
  }

  /** Only the walks need a final scale. */
  ghost function LastScale(r: Params): real { if Walks(r) then 0.25 else 1.0 }

  ghost function Rotated(r: Params, x: Vector): (w: Vector)
    requires Valid(r) && |x| == r.dim
    ensures |w| == r.padded
  {
    Scale(LastScale(r), Stages(r, Pad(r, x)))
  }

  ghost function Unrotated(r: Params, w: Vector): (x: Vector)
    requires Valid(r) && |w| == r.padded
    ensures |x| == r.dim
  {
    Scale(LastScale(r), Unstages(r, w))[..r.dim]
  }

  /** The stages undone one by one, each leaving its gain. */
  lemma UndoAll(r: Params, v: Vector, gain: real, s0: real, s1: real, s2: real, s3: real, s4: real)
    requires Valid(r) && |v| == r.padded && gain == Gain(r)
    requires s1 == s0 * gain && s2 == s1 * gain && s3 == s2 * gain && s4 == s3 * gain
    ensures Unstages(r, Scale(s0, Stages(r, v))) == Scale(s4, v)
  {
    var v1 := Stage(r, 0, v);
    var v2 := Stage(r, 1, v1);
    var v3 := Stage(r, 2, v2);
    UnstageScaledStage(r, 3, v3, Stage(r, 3, v3), s0, gain, s1);
    UnstageScaledStage(r, 2, v2, v3, s1, gain, s2);
    UnstageScaledStage(r, 1, v1, v2, s2, gain, s3);
    UnstageScaledStage(r, 0, v, v1, s3, gain, s4);
  }

  lemma UnrotatedFrom(r: Params, w: Vector, v: Vector, s: real, x: real)
    requires Valid(r) && |w| == |v| == r.padded && s == LastScale(r) && s * x == 1.0 && Unstages(r, w) == Scale(x, v)
    ensures Unrotated(r, w) == v[..r.dim]
  {
    ScaleScale(s, x, 1.0, v);
    ScaleOne(v);
  }

  /** Inverse rotation undoes rotation, with and without walks, for every flip mask. */
  lemma InverseUndoesRotation(r: Params, x: Vector)
    requires Valid(r) && |x| == r.dim
    ensures Unrotated(r, Rotated(r, x)) == x
  {
    var v, w := Pad(r, x), Rotated(r, x);
    if Walks(r) {
      UndoAll(r, v, 2.0, 0.25, 0.5, 1.0, 2.0, 4.0);
      UnrotatedFrom(r, w, v, 0.25, 4.0);
    } else {
      UndoAll(r, v, 1.0, 1.0, 1.0, 1.0, 1.0, 1.0);
      UnrotatedFrom(r, w, v, 1.0, 1.0);
    }
    assert v[..r.dim] == x;
  }

  lemma UnstageScaledStage(r: Params, stage: nat, v: Vector, w: Vector, x: real, gain: real, y: real)
    requires Valid(r) && stage < 4 && |v| == r.padded && w == Stage(r, stage, v)
    requires gain == Gain(r) && y == x * gain
    ensures Unstage(r, stage, Scale(x, w)) == Scale(y, v)
  {
    UnstageScale(r, stage, x, w);
    UnstageUndoesStage(r, stage, v, gain);
    ScaleScale(x, gain, y, v);
  }

  lemma RedoAll(r: Params, w: Vector, gain: real, s0: real, s1: real, s2: real, s3: real, s4: real)
    requires Valid(r) && |w| == r.padded && gain == Gain(r)
    requires s1 == s0 * gain && s2 == s1 * gain && s3 == s2 * gain && s4 == s3 * gain
    ensures Stages(r, Scale(s0, Unstages(r, w))) == Scale(s4, w)
  {
    var v3 := Unstage(r, 3, w);
    var v2 := Unstage(r, 2, v3);
    var v1 := Unstage(r, 1, v2);
    StageScaledUnstage(r, 0, v1, Unstage(r, 0, v1), s0, gain, s1);
    StageScaledUnstage(r, 1, v2, v1, s1, gain, s2);
    StageScaledUnstage(r, 2, v3, v2, s2, gain, s3);
    StageScaledUnstage(r, 3, w, v3, s3, gain, s4);
  }

  /** Without padding every rotated vector is the rotation of a raw one. */
  lemma RotationUndoesInverse(r: Params, w: Vector)
    requires Valid(r) && r.dim == r.padded && |w| == r.padded
    ensures Rotated(r, Unrotated(r, w)) == w
  {
    assert Pad(r, Unrotated(r, w)) == Scale(LastScale(r), Unstages(r, w));
    if Walks(r) {
      RedoAll(r, w, 2.0, 0.25, 0.5, 1.0, 2.0, 4.0);
      ScaleScale(0.25, 4.0, 1.0, w);
    } else {
      RedoAll(r, w, 1.0, 1.0, 1.0, 1.0, 1.0, 1.0);
      ScaleScale(1.0, 1.0, 1.0, w);
    }
    ScaleOne(w);
  }

  lemma StageScaledUnstage(r: Params, stage: nat, v: Vector, w: Vector, x: real, gain: real, y: real)
    requires Valid(r) && stage < 4 && |v| == r.padded && w == Unstage(r, stage, v)
    requires gain == Gain(r) && y == x * gain
    ensures Stage(r, stage, Scale(x, w)) == Scale(y, v)
  {
    StageScale(r, stage, x, w);
    StageUndoesUnstage(r, stage, v, gain);
    ScaleScale(x, gain, y, v);
  }

  lemma StagesDot(r: Params, u: Vector, v: Vector)
    requires Valid(r) && |u| == |v| == r.padded
    ensures Dot(Stages(r, u), Stages(r, v)) == (if Walks(r) then 16.0 else 1.0) * Dot(u, v)
  {
    var u1, v1 := Stage(r, 0, u), Stage(r, 0, v);
    var u2, v2 := Stage(r, 1, u1), Stage(r, 1, v1);
    var u3, v3 := Stage(r, 2, u2), Stage(r, 2, v2);
    StageDot(r, 0, u, v);
    StageDot(r, 1, u1, v1);
    StageDot(r, 2, u2, v2);
    StageDot(r, 3, u3, v3);
  }

  /** Rotation keeps inner products. */
  lemma RotationKeepsDot(r: Params, x: Vector, y: Vector)
    requires Valid(r) && |x| == |y| == r.dim
    ensures Dot(Rotated(r, x), Rotated(r, y)) == Dot(x, y)
  {
    PadDot(r, x, y);
    StagesDot(r, Pad(r, x), Pad(r, y));
    LastScaleDot(r, Stages(r, Pad(r, x)), Stages(r, Pad(r, y)), Dot(x, y));
  }

  lemma PadDot(r: Params, x: Vector, y: Vector)
    requires Valid(r) && |x| == |y| == r.dim
    ensures Dot(Pad(r, x), Pad(r, y)) == Dot(x, y)
  {
    RangeSame(Pad(r, x), Pad(r, y), 0, x, y, 0, r.dim);
    RangeZero(Pad(r, x), Pad(r, y), r.dim, r.padded);
    RangeSplit(Pad(r, x), Pad(r, y), 0, r.dim, r.padded);
  }

  lemma LastScaleDot(r: Params, u: Vector, v: Vector, d: real)
    requires |u| == |v| && Dot(u, v) == (if Walks(r) then 16.0 else 1.0) * d
    ensures Dot(Scale(LastScale(r), u), Scale(LastScale(r), v)) == d
  {
    if Walks(r) {
      DotScaleBoth(0.25, u, v, 16.0 * d, 4.0 * d, d);
    } else {
      DotScaleBoth(1.0, u, v, d, d, d);
    }
  }

  /** And so it keeps L2 distances. */
  lemma RotationKeepsDistance(r: Params, x: Vector, y: Vector)
    requires Valid(r) && |x| == |y| == r.dim
    ensures DistanceSquared(Rotated(r, x), Rotated(r, y)) == DistanceSquared(x, y)
  {
    DistanceExpands(Rotated(r, x), Rotated(r, y));
    DistanceExpands(x, y);
    RotationKeepsDot(r, x, x);
    RotationKeepsDot(r, x, y);
    RotationKeepsDot(r, y, y);
  }
}
