/** RaBitQ codes, distance estimate and reconstruction (common/rabitq/rabitq.cpp,
    common/rabitq/estimator.cpp, common/rabitq/query.h).

    All vectors here are rotated and of the padded dimension. A vector `x` near a centroid `c` is
    stored as a sign bit and an 8-bit code per coordinate of the residual `x - c`, with two factors.
 */
module RabitqCodes {
  import opened Vectors

  datatype Metric = L2 | InnerProduct

  // 2^ex_bits for the 8 extension bits.
  const LEVELS: real := 256.0
  const MAX_CODE: nat := 255

  // ----- Codes of one coordinate -----

  function SignBit(x: real): nat { if x > 0.0 then 1 else 0 }

  /** Negative coordinates store the complement of the code. */
  function ExCode(x: real, code: nat): nat
    requires code <= MAX_CODE
  {
    if x < 0.0 then MAX_CODE - code else code
  }

  /** The encoder's view of a coordinate; its sign test is `>= 0`. */
  function Encoded(x: real, code: nat): real
    requires code <= MAX_CODE
  {
    ExCode(x, code) as real + (if x >= 0.0 then LEVELS else 0.0) - 255.5
  }

  /** The estimator's and the decoder's view, from the stored bit and code. */
  function Decoded(bit: nat, ex: nat): real {
    LEVELS * bit as real + ex as real - 255.5
  }

  /** A coordinate decodes to what the factors were computed from exactly when it is not zero. */
  lemma ViewsAgree(x: real, code: nat)
    requires code <= MAX_CODE
    ensures Encoded(x, code) == if x >= 0.0 then code as real + 0.5 else -(code as real + 0.5)
    ensures Decoded(SignBit(x), ExCode(x, code)) == Encoded(x, code) - (if x == 0.0 then LEVELS else 0.0)
  {
  }

  // ----- Quantised magnitudes -----

  const EPS: real := 0.00001

  /** Truncation of a scaled coordinate into `0..max`. */
  function Quantised(t: real, o: real, max: nat): (code: nat)
    ensures code <= max
  {
    var scaled := t * o + EPS;
    if scaled >= max as real then max else if scaled <= 0.0 then 0 else scaled.Floor
  }

  /** The largest code that does not exceed the scaled coordinate, within `0..max`. */
  lemma QuantisedTruncates(t: real, o: real, max: nat)
    ensures Quantised(t, o, max) > 0 ==> Quantised(t, o, max) as real <= t * o + EPS
    ensures Quantised(t, o, max) < max ==> t * o + EPS < Quantised(t, o, max) as real + 1.0
  {
  }

  function QuantisedAll(t: real, o: Vector, max: nat): (codes: seq<nat>)
    ensures |codes| == |o| && forall i :: 0 <= i < |codes| ==> codes[i] <= max
  {
    seq(|o|, i requires 0 <= i < |o| => Quantised(t, o[i], max))
  }

  /** Codes as the middle of their cell. */
  function Halves(codes: seq<nat>): (v: Vector)
    ensures |v| == |codes|
  {
    seq(|codes|, i requires 0 <= i < |codes| => codes[i] as real + 0.5)
  }

  // ----- Codes of a vector -----

  ghost predicate InRange(codes: seq<nat>) {
    forall i :: 0 <= i < |codes| ==> codes[i] <= MAX_CODE
  }

  function SignBits(r: Vector): (s: seq<nat>)
    ensures |s| == |r|
  {
    seq(|r|, i requires 0 <= i < |r| => SignBit(r[i]))
  }

  ghost function ExCodes(r: Vector, codes: seq<nat>): (s: seq<nat>)
    requires |codes| == |r| && InRange(codes)
    ensures |s| == |r|
  {
    seq(|r|, i requires 0 <= i < |r| => ExCode(r[i], codes[i]))
  }

  /** `xu`: the quantised direction of the residual. */
  ghost function Direction(r: Vector, codes: seq<nat>): (u: Vector)
    requires |codes| == |r| && InRange(codes)
    ensures |u| == |r|
  {
    seq(|r|, i requires 0 <= i < |r| => Encoded(r[i], codes[i]))
  }

  function DecodedVector(bits: seq<nat>, ex: seq<nat>): (u: Vector)
    requires |bits| == |ex|
    ensures |u| == |ex|
  {
    seq(|ex|, i requires 0 <= i < |ex| => Decoded(bits[i], ex[i]))
  }

  ghost predicate NoZero(r: Vector) {
    forall i :: 0 <= i < |r| ==> r[i] != 0.0
  }

  ghost function ZeroMask(r: Vector): (m: Vector)
    ensures |m| == |r|
  {
    seq(|r|, i requires 0 <= i < |r| => if r[i] == 0.0 then 1.0 else 0.0)
  }

  /** The decoded vector misses the direction by 256 on the zero coordinates of the residual. */
  lemma DecodedMisses(r: Vector, codes: seq<nat>)
    requires |codes| == |r| && InRange(codes)
    ensures DecodedVector(SignBits(r), ExCodes(r, codes)) == Sub(Direction(r, codes), Scale(LEVELS, ZeroMask(r)))
  {
    var left := DecodedVector(SignBits(r), ExCodes(r, codes));
    var right := Sub(Direction(r, codes), Scale(LEVELS, ZeroMask(r)));
    forall i | 0 <= i < |r| ensures left[i] == right[i] {
      ViewsAgree(r[i], codes[i]);
    }
  }

  lemma TermPositive(r: Vector, codes: seq<nat>, i: nat)
    requires |codes| == |r| && InRange(codes) && i < |r|
    ensures r[i] * Direction(r, codes)[i] >= 0.0 && (r[i] != 0.0 ==> r[i] * Direction(r, codes)[i] > 0.0)
  {
    var x, u := r[i], Direction(r, codes)[i];
    ViewsAgree(x, codes[i]);
    SameSign(x, u, x * u);
  }

  lemma {:induction false} DirectionNonNegative(r: Vector, codes: seq<nat>, hi: nat)
    requires |codes| == |r| && InRange(codes) && hi <= |r|
    ensures DotRange(r, Direction(r, codes), 0, hi) >= 0.0
  {
    if hi > 0 {
      DirectionNonNegative(r, codes, hi - 1);
      TermPositive(r, codes, hi - 1);
    }
  }

  /** The direction makes a positive angle with every residual but zero. */
  lemma {:induction false} DirectionPositive(r: Vector, codes: seq<nat>, hi: nat, i: nat)
    requires |codes| == |r| && InRange(codes) && i < hi <= |r| && r[i] != 0.0
    ensures DotRange(r, Direction(r, codes), 0, hi) > 0.0
  {
    DirectionNonNegative(r, codes, hi - 1);
    TermPositive(r, codes, hi - 1);
    if i < hi - 1 {
      DirectionPositive(r, codes, hi - 1, i);
    }
  }

  lemma SameSign(x: real, u: real, product: real)
    requires product == x * u && (x >= 0.0 ==> u > 0.0) && (x < 0.0 ==> u < 0.0)
    ensures product >= 0.0 && (x != 0.0 ==> product > 0.0)
  {
    if x > 0.0 {
      ProductPositive(x, u, product);
    } else if x < 0.0 {
      ProductPositive(-x, -u, product);
    }
  }

  // ----- The stored code -----

  datatype Code = Code(bits: seq<nat>, ex: seq<nat>, fAdd: real, fRescale: real)

  /** What a code of `x` near `c` holds. `k` is the length of the reconstructed residual relative to the direction. */
  ghost predicate Encodes(metric: Metric, x: Vector, c: Vector, codes: seq<nat>, k: real, code: Code)
    requires |x| == |c|
  {
    var r := Sub(x, c);
    && |codes| == |r| && InRange(codes)
    && code.bits == SignBits(r) && code.ex == ExCodes(r, codes)
    && if r == Zero(|r|) then
         k == 0.0 && code.fRescale == 0.0 && code.fAdd == (if metric == L2 then 0.0 else 1.0)
       else
         var u := Direction(r, codes);
         && k > 0.0 && k * Dot(r, u) == Dot(r, r)
         && code.fRescale == (if metric == L2 then -2.0 * k else -k)
         && code.fAdd == (if metric == L2 then Dot(r, r) + 2.0 * (k * Dot(c, u)) else 1.0 - Dot(r, c) + k * Dot(c, u))
  }

  /** `r̂`: what the stored code says about the residual. */
  ghost function ReconstructedResidual(x: Vector, c: Vector, codes: seq<nat>, k: real): (h: Vector)
    requires |x| == |c| == |codes| && InRange(codes)
    ensures |h| == |x|
  {
    Scale(k, Direction(Sub(x, c), codes))
  }

  /** Its inner product with the residual is the residual's squared length. */
  lemma ReconstructedLength(metric: Metric, x: Vector, c: Vector, codes: seq<nat>, k: real, code: Code)
    requires |x| == |c| && Encodes(metric, x, c, codes, k, code)
    ensures Dot(ReconstructedResidual(x, c, codes, k), Sub(x, c)) == Dot(Sub(x, c), Sub(x, c))
  {
    var r := Sub(x, c);
    var u := Direction(r, codes);
    DotSymmetric(u, r);
    DotScale(k, u, r, Dot(u, r), k * Dot(u, r));
    if r == Zero(|r|) {
      RangeZero(r, r, 0, |r|);
      ZeroTimes(k, Dot(u, r));
    }
  }

  // ----- The estimate -----

  function AsReals(s: seq<nat>): (v: Vector)
    ensures |v| == |s|
  {
    seq(|s|, i requires 0 <= i < |s| => s[i] as real)
  }

  function Ones(n: nat): (v: Vector)
    ensures |v| == n
  {
    seq(n, _ => 1.0)
  }

  /** `g_add`: the query's own part. */
  function QueryPart(metric: Metric, q: Vector, c: Vector): real
    requires |q| == |c|
  {
    if metric == L2 then DistanceSquared(q, c) else -Dot(q, c)
  }

  /** `get_full_dist_internal`, from the inner products of the query with bits, codes and ones. */
  function FullDistance(metric: Metric, code: Code, q: Vector, c: Vector): real
    requires |q| == |c| == |code.bits| == |code.ex|
  {
    code.fAdd + QueryPart(metric, q, c)
    + code.fRescale * (LEVELS * Dot(q, AsReals(code.bits)) + Dot(q, AsReals(code.ex)) + -255.5 * Dot(q, Ones(|q|)))
  }

  lemma {:induction false} DecodedRange(q: Vector, bits: seq<nat>, ex: seq<nat>, hi: nat)
    requires |q| == |bits| == |ex| && hi <= |q|
    ensures LEVELS * DotRange(q, AsReals(bits), 0, hi) + DotRange(q, AsReals(ex), 0, hi)
          + -255.5 * DotRange(q, Ones(|q|), 0, hi)
         == DotRange(q, DecodedVector(bits, ex), 0, hi)
  {
    if hi > 0 {
      DecodedRange(q, bits, ex, hi - 1);
      DecodedProduct(q[hi - 1], bits[hi - 1] as real, ex[hi - 1] as real);
    }
  }

  lemma DecodedProduct(q: real, b: real, e: real)
    ensures LEVELS * (q * b) + q * e + -255.5 * (q * 1.0) == q * (LEVELS * b + e - 255.5)
  {
  }

  /** The three kernels together compute one inner product with the decoded vector. */
  lemma FullDistanceDecodes(metric: Metric, code: Code, q: Vector, c: Vector, d: real, fd: real)
    requires |q| == |c| == |code.bits| == |code.ex|
    requires d == Dot(q, DecodedVector(code.bits, code.ex)) && fd == code.fRescale * d
    ensures FullDistance(metric, code, q, c) == code.fAdd + QueryPart(metric, q, c) + fd
  {
    DecodedRange(q, code.bits, code.ex, |q|);
    var e := LEVELS * Dot(q, AsReals(code.bits)) + Dot(q, AsReals(code.ex)) + -255.5 * Dot(q, Ones(|q|));
    EqualProducts(code.fRescale, e, d);
  }

  lemma EqualProducts(x: real, a: real, b: real)
    requires a == b
    ensures x * a == x * b
  {
  }

  /** The estimate RaBitQ promises, in terms of `r̂`. */
  ghost function Ideal(metric: Metric, x: Vector, c: Vector, codes: seq<nat>, k: real, q: Vector): real
    requires |x| == |c| == |codes| == |q| && InRange(codes)
  {
    var r, h := Sub(x, c), ReconstructedResidual(x, c, codes, k);
    if metric == L2 then Dot(r, r) + DistanceSquared(q, c) - 2.0 * Dot(h, Sub(q, c))
    else 1.0 - Dot(r, c) - Dot(q, c) - Dot(h, Sub(q, c))
  }

  /** The distance the estimate stands for. */
  ghost function TrueDistance(metric: Metric, x: Vector, q: Vector): real
    requires |x| == |q|
  {
    if metric == L2 then DistanceSquared(x, q) else 1.0 - Dot(x, q)
  }

  /** The promised estimate is off by what the code misses of the residual, seen along the query's residual. */
  lemma IdealError(metric: Metric, x: Vector, c: Vector, codes: seq<nat>, k: real, q: Vector)
    requires |x| == |c| == |codes| == |q| && InRange(codes)
    ensures var missed := Sub(Sub(x, c), ReconstructedResidual(x, c, codes, k));
            Ideal(metric, x, c, codes, k, q) ==
            TrueDistance(metric, x, q) + (if metric == L2 then 2.0 else 1.0) * Dot(missed, Sub(q, c))
  {
    var r, h, s := Sub(x, c), ReconstructedResidual(x, c, codes, k), Sub(q, c);
    DotSub(r, h, s);
    DotSymmetric(Sub(r, h), s);
    DotSymmetric(r, s);
    DotSymmetric(h, s);
    if metric == L2 {
      assert Sub(x, q) == Sub(r, s);
      DistanceExpands(r, s);
      assert DistanceSquared(q, c) == Dot(s, s);
    } else {
      DotSub(x, c, q);
      DotSub(q, c, r);
      DotSymmetric(q, r);
      DotSub(x, c, c);
      DotSymmetric(x, q);
      DotSymmetric(c, q);
      DotSymmetric(r, q);
      DotSymmetric(r, c);
    }
  }

  lemma ResidualAgainst(u: Vector, k: real, q: Vector, c: Vector, kq: real, kc: real)
    requires |u| == |q| == |c| && kq == k * Dot(q, u) && kc == k * Dot(c, u)
    ensures Dot(Scale(k, u), Sub(q, c)) == kq - kc
  {
    DotSymmetric(q, u);
    DotSymmetric(c, u);
    DotSub(q, c, Scale(k, u));
    DotScale(k, u, q, Dot(u, q), kq);
    DotScale(k, u, c, Dot(u, c), kc);
  }

  /** The factors turn the inner product with the direction into the promised estimate. */
  lemma IdealFromFactors(metric: Metric, x: Vector, c: Vector, codes: seq<nat>, k: real, code: Code, q: Vector,
                         e: real, fe: real)
    requires |x| == |c| == |q| && Encodes(metric, x, c, codes, k, code) && Sub(x, c) != Zero(|x|)
    requires e == Dot(q, Direction(Sub(x, c), codes)) && fe == code.fRescale * e
    ensures Ideal(metric, x, c, codes, k, q) == code.fAdd + QueryPart(metric, q, c) + fe
  {
    var u := Direction(Sub(x, c), codes);
    var kq, kc := k * e, k * Dot(c, u);
    ResidualAgainst(u, k, q, c, kq, kc);
    MinusTwice(k, e, kq);
  }

  lemma MinusTwice(k: real, e: real, ke: real)
    requires ke == k * e
    ensures -2.0 * k * e == -2.0 * ke && -k * e == -ke
  {
  }

  /** How far the stored code's estimate is from the promised one: 256 times the query on zero coordinates. */
  lemma EstimateGap(metric: Metric, x: Vector, c: Vector, codes: seq<nat>, k: real, code: Code, q: Vector,
                    z: real, kz: real)
    requires |x| == |c| == |q| && Encodes(metric, x, c, codes, k, code) && Sub(x, c) != Zero(|x|)
    requires z == Dot(q, ZeroMask(Sub(x, c))) && kz == k * z
    ensures FullDistance(metric, code, q, c) ==
            Ideal(metric, x, c, codes, k, q) + (if metric == L2 then 512.0 else 256.0) * kz
  {
    var e := Dot(q, Direction(Sub(x, c), codes));
    var d := e - LEVELS * z;
    var fe, fd := code.fRescale * e, code.fRescale * d;
    GapProduct(metric, k, code.fRescale, e, d, z, fe, fd, kz);
    IdealFromFactors(metric, x, c, codes, k, code, q, e, fe);
    FullFromFactors(metric, x, c, codes, code, q, e, z, d, fd);
  }

  lemma FullFromFactors(metric: Metric, x: Vector, c: Vector, codes: seq<nat>, code: Code, q: Vector,
                        e: real, z: real, d: real, fd: real)
    requires |x| == |c| == |q| == |codes| && InRange(codes)
    requires code.bits == SignBits(Sub(x, c)) && code.ex == ExCodes(Sub(x, c), codes)
    requires e == Dot(q, Direction(Sub(x, c), codes)) && z == Dot(q, ZeroMask(Sub(x, c)))
    requires d == e - LEVELS * z && fd == code.fRescale * d
    ensures FullDistance(metric, code, q, c) == code.fAdd + QueryPart(metric, q, c) + fd
  {
    DecodedDot(q, Sub(x, c), codes, e, z);
    FullDistanceDecodes(metric, code, q, c, d, fd);
  }

  lemma DecodedDot(q: Vector, r: Vector, codes: seq<nat>, e: real, z: real)
    requires |q| == |r| == |codes| && InRange(codes) && e == Dot(q, Direction(r, codes)) && z == Dot(q, ZeroMask(r))
    ensures Dot(q, DecodedVector(SignBits(r), ExCodes(r, codes))) == e - LEVELS * z
  {
    DecodedMisses(r, codes);
    DotSub(Direction(r, codes), Scale(LEVELS, ZeroMask(r)), q);
    DotSymmetric(ZeroMask(r), q);
    DotScale(LEVELS, ZeroMask(r), q, z, LEVELS * z);
  }

  lemma GapProduct(metric: Metric, k: real, f: real, e: real, d: real, z: real, fe: real, fd: real, kz: real)
    requires f == (if metric == L2 then -2.0 * k else -k) && d == e - LEVELS * z
    requires fe == f * e && fd == f * d && kz == k * z
    ensures fd == fe + (if metric == L2 then 512.0 else 256.0) * kz
  {
  }

  lemma {:induction false} NoZeroMask(q: Vector, r: Vector, hi: nat)
    requires |q| == |r| && hi <= |r| && NoZero(r)
    ensures DotRange(q, ZeroMask(r), 0, hi) == 0.0
  {
    if hi > 0 {
      NoZeroMask(q, r, hi - 1);
      ZeroTimes(ZeroMask(r)[hi - 1], q[hi - 1]);
    }
  }

  ghost function Unit(n: nat, i: nat): (v: Vector)
    ensures |v| == n
  {
    seq(n, j => if j == i then 1.0 else 0.0)
  }

  lemma {:induction false} UnitDot(n: nat, i: nat, v: Vector, hi: nat)
    requires |v| == n && i < n && hi <= n
    ensures DotRange(Unit(n, i), v, 0, hi) == if i < hi then v[i] else 0.0
  {
    if hi > 0 {
      UnitDot(n, i, v, hi - 1);
      ZeroOrOne(Unit(n, i)[hi - 1], v[hi - 1]);
    }
  }

  lemma ZeroOrOne(x: real, y: real)
    requires x == 0.0 || x == 1.0
    ensures x * y == if x == 0.0 then 0.0 else y
  {
  }

  /** The estimate is the promised one for every query exactly when no residual coordinate is zero. */
  lemma EstimateIsIdealIff(metric: Metric, x: Vector, c: Vector, codes: seq<nat>, k: real, code: Code)
    requires |x| == |c| && Encodes(metric, x, c, codes, k, code) && Sub(x, c) != Zero(|x|)
    ensures (forall q :: |q| == |x| ==> FullDistance(metric, code, q, c) == Ideal(metric, x, c, codes, k, q))
       <==> NoZero(Sub(x, c))
  {
    var r := Sub(x, c);
    if NoZero(r) {
      forall q | |q| == |x| ensures FullDistance(metric, code, q, c) == Ideal(metric, x, c, codes, k, q) {
        NoZeroMask(q, r, |r|);
        EstimateGap(metric, x, c, codes, k, code, q, 0.0, 0.0);
      }
    } else {
      var i :| 0 <= i < |r| && r[i] == 0.0;
      var q := Unit(|x|, i);
      UnitDot(|x|, i, ZeroMask(r), |x|);
      EstimateGap(metric, x, c, codes, k, code, q, 1.0, k);
      assert FullDistance(metric, code, q, c) != Ideal(metric, x, c, codes, k, q);
    }
  }

  lemma ResidualPlusCentroid(x: Vector, c: Vector)
    requires |x| == |c|
    ensures Dot(x, x) == Dot(Sub(x, c), Sub(x, c)) + Dot(Sub(x, c), c) + Dot(x, c)
  {
    DotSub(x, c, Sub(x, c));
    DotSub(x, c, x);
    DotSub(x, c, c);
    DotSymmetric(c, x);
  }

  /** What the distance of a stored vector to itself should be. */
  function TrueSelfDistance(metric: Metric, x: Vector): real {
    if metric == L2 then 0.0 else 1.0 - Dot(x, x)
  }

  lemma IdealSelfDistance(metric: Metric, x: Vector, c: Vector, codes: seq<nat>, k: real, code: Code)
    requires |x| == |c| && Encodes(metric, x, c, codes, k, code)
    ensures Ideal(metric, x, c, codes, k, x) == TrueSelfDistance(metric, x)
  {
    ReconstructedLength(metric, x, c, codes, k, code);
    ResidualPlusCentroid(x, c);
  }

  /** The estimate of a stored vector against itself is exact if and only if its coordinates where the
      residual is zero add up to zero; without zero residual coordinates it always is. */
  lemma SelfDistanceIff(metric: Metric, x: Vector, c: Vector, codes: seq<nat>, k: real, code: Code)
    requires |x| == |c| && Encodes(metric, x, c, codes, k, code) && Sub(x, c) != Zero(|x|)
    ensures FullDistance(metric, code, x, c) == TrueSelfDistance(metric, x) <==> Dot(x, ZeroMask(Sub(x, c))) == 0.0
    ensures NoZero(Sub(x, c)) ==> FullDistance(metric, code, x, c) == TrueSelfDistance(metric, x)
  {
    var r := Sub(x, c);
    var z := Dot(x, ZeroMask(r));
    var kz := k * z;
    IdealSelfDistance(metric, x, c, codes, k, code);
    EstimateGap(metric, x, c, codes, k, code, x, z, kz);
    ZeroFactor(k, z, kz);
    if NoZero(r) {
      NoZeroMask(x, r, |r|);
    }
  }

  lemma ZeroFactor(k: real, z: real, kz: real)
    requires k > 0.0 && kz == k * z
    ensures kz == 0.0 <==> z == 0.0
  {
    if z > 0.0 {
      ProductPositive(k, z, kz);
    } else if z < 0.0 {
      ProductPositive(k, -z, -kz);
    }
  }

  // ----- The failing vectors -----

  /** The ones differ from the first unit vector everywhere but in the first coordinate. */
  lemma OnesMinusUnit(n: nat)
    requires n >= 2
    ensures var r := Sub(Ones(n), Unit(n, 0));
            r[0] == 0.0 && (forall i :: 1 <= i < n ==> r[i] == 1.0) && r != Zero(n) && ZeroMask(r) == Unit(n, 0)
  {
    var r := Sub(Ones(n), Unit(n, 0));
    assert r[1] == 1.0 && Zero(n)[1] == 0.0;
  }

  /** One zero residual coordinate is enough: no code of the ones near the first unit vector, whatever the
      search found, puts the vector at its true distance from itself. */
  lemma ZeroCoordinateBreaksSelfDistance(metric: Metric, n: nat, codes: seq<nat>, k: real, code: Code)
    requires n >= 2 && Encodes(metric, Ones(n), Unit(n, 0), codes, k, code)
    ensures FullDistance(metric, code, Ones(n), Unit(n, 0)) ==
            TrueSelfDistance(metric, Ones(n)) + (if metric == L2 then 512.0 else 256.0) * k
    ensures k > 0.0
  {
    OnesMinusUnit(n);
    UnitDot(n, 0, Ones(n), n);
    DotSymmetric(Ones(n), Unit(n, 0));
    IdealSelfDistance(metric, Ones(n), Unit(n, 0), codes, k, code);
    EstimateGap(metric, Ones(n), Unit(n, 0), codes, k, code, Ones(n), 1.0, k);
  }

  /** The largest codes, and the L2 factors they give. */
  ghost function LargestCodes(n: nat): (codes: seq<nat>)
    ensures |codes| == n && InRange(codes)
  {
    seq(n, i => if i == 0 then 0 else MAX_CODE)
  }

  ghost function OnesCode(n: nat): Code
    requires n >= 2
  {
    var r := Sub(Ones(n), Unit(n, 0));
    var k := 2.0 / 511.0;
    Code(SignBits(r), ExCodes(r, LargestCodes(n)), (n - 1) as real + k, -2.0 * k)
  }

  lemma {:induction false} OnesProducts(n: nat, hi: nat)
    requires 1 <= hi <= n
    ensures var r := Sub(Ones(n), Unit(n, 0));
            DotRange(r, r, 0, hi) == (hi - 1) as real &&
            DotRange(r, Direction(r, LargestCodes(n)), 0, hi) == 255.5 * (hi - 1) as real
  {
    var r := Sub(Ones(n), Unit(n, 0));
    var u := Direction(r, LargestCodes(n));
    if hi == 1 {
      ZeroTimes(r[0], r[0]);
      ZeroTimes(r[0], u[0]);
    } else {
      OnesProducts(n, hi - 1);
      assert r[hi - 1] == 1.0 && u[hi - 1] == 255.5;
    }
  }

  /** At the largest codes the ones are 1024/511 away from themselves, in every dimension from two on. */
  lemma OnesAwayFromThemselves(n: nat)
    requires n >= 2
    ensures Encodes(L2, Ones(n), Unit(n, 0), LargestCodes(n), 2.0 / 511.0, OnesCode(n))
    ensures FullDistance(L2, OnesCode(n), Ones(n), Unit(n, 0)) == 1024.0 / 511.0
  {
    var r := Sub(Ones(n), Unit(n, 0));
    var u := Direction(r, LargestCodes(n));
    OnesMinusUnit(n);
    OnesProducts(n, n);
    UnitDot(n, 0, u, n);
    assert u[0] == 0.5;
    ZeroCoordinateBreaksSelfDistance(L2, n, LargestCodes(n), 2.0 / 511.0, OnesCode(n));
  }

  /** A vector on its centroid is exact against every query. */
  lemma ZeroResidualIsExact(metric: Metric, x: Vector, c: Vector, codes: seq<nat>, k: real, code: Code, q: Vector)
    requires |x| == |c| == |q| && Encodes(metric, x, c, codes, k, code) && Sub(x, c) == Zero(|x|)
    ensures FullDistance(metric, code, q, c) == if metric == L2 then DistanceSquared(q, x) else 1.0 - Dot(q, x)
  {
    var d := Dot(q, DecodedVector(code.bits, code.ex));
    FullDistanceDecodes(metric, code, q, c, d, 0.0);
    ZeroTimes(code.fRescale, d);
    assert x == c by {
      forall i | 0 <= i < |x| ensures x[i] == c[i] {
        assert Sub(x, c)[i] == 0.0;
      }
    }
  }
}
