/** Filling and reading RaBitQ codes (common/rabitq/rabitq.cpp, common/rabitq/utils.h): the loops over
    the coordinates, proved against `RabitqCodes`. Square roots are taken by an oracle. */
module RabitqEncoder {
  import opened Vectors
  import opened RabitqCodes
  import opened Rescale

  function Abs(x: real): real { if x < 0.0 then -x else x }

  method OneBitCode(vec: array<real>, centroid: array<real>, residual: array<real>, bits: array<nat>)
    requires vec.Length == centroid.Length == residual.Length == bits.Length && residual != vec && residual != centroid
    modifies residual, bits
    ensures residual[..] == Sub(vec[..], centroid[..]) && bits[..] == SignBits(residual[..])
  {
    VecSub(vec, centroid, residual);
    for i := 0 to bits.Length
      invariant residual[..] == Sub(vec[..], centroid[..])
      invariant forall j :: 0 <= j < i ==> bits[j] == SignBit(residual[j])
    {
      bits[i] := if residual[i] > 0.0 then 1 else 0;
    }
  }

  method VecSub(u: array<real>, v: array<real>, out: array<real>)
    requires u.Length == v.Length == out.Length && out != u && out != v
    modifies out
    ensures out[..] == Sub(u[..], v[..])
  {
    for i := 0 to out.Length
      invariant forall j :: 0 <= j < i ==> out[j] == u[j] - v[j]
    {
      out[i] := u[i] - v[i];
    }
  }

  // ----- Normalised absolute values -----

  function NormAbs(norm: real, v: Vector): (w: Vector)
    ensures |w| == |v|
  {
    seq(|v|, i requires 0 <= i < |v| => if norm > 0.0 then Abs(v[i]) / norm else 0.0)
  }

  /** `rowwise_norm_abs` for one row. */
  method RowwiseNormAbs(root: real -> real, a: array<real>)
    modifies a
    ensures var v := old(a[..]); a[..] == NormAbs(root(Dot(v, v)), v)
  {
    ghost var v := a[..];
    var sum := 0.0;
    for j := 0 to a.Length
      invariant sum == DotRange(v, v, 0, j)
    {
      sum := sum + a[j] * a[j];
    }
    var norm := root(sum);
    for i := 0 to a.Length
      invariant forall j :: 0 <= j < i ==> a[j] == NormAbs(norm, v)[j]
      invariant forall j :: i <= j < a.Length ==> a[j] == v[j]
    {
      if norm > 0.0 {
        a[i] := Abs(a[i]) / norm;
      } else {
        a[i] := 0.0;
      }
    }
  }

  lemma NormAbsNonNegative(norm: real, v: Vector)
    ensures NonNegative(NormAbs(norm, v))
  {
    forall i | 0 <= i < |v| ensures NormAbs(norm, v)[i] >= 0.0 {
      if norm > 0.0 && Abs(v[i]) > 0.0 {
        QuotientPositive(Abs(v[i]), norm);
      }
    }
  }

  // ----- Extension codes -----

  /** `quantize_ex`: the codes at the factor of the largest cosine visited. */
  method QuantizeEx(root: real -> real, o: array<real>, code: array<nat>)
    returns (ipnormInv: real, ghost t: real, ghost run: Run)
    requires o.Length == code.Length > 0 && NonNegative(o[..]) && IsSquareRoot(root)
    modifies code
    ensures IsBestFactor(root, o[..], 8, run, t) && code[..] == QuantisedAll(t, o[..], MAX_CODE)
    ensures InverseOf(code[..], o[..], ipnormInv)
  {
    var factor;
    factor, run := BestRescaleFactor(root, o[..], 8);
    t := factor;
    ipnormInv := QuantizeAt(o, code, factor);
  }

  method QuantizeAt(o: array<real>, code: array<nat>, t: real) returns (ipnormInv: real)
    requires o.Length == code.Length
    modifies code
    ensures code[..] == QuantisedAll(t, o[..], MAX_CODE)
    ensures InverseOf(code[..], o[..], ipnormInv)
  {
    var ipnorm := 0.0;
    for i := 0 to o.Length
      invariant forall j :: 0 <= j < i ==> code[j] == Quantised(t, o[j], MAX_CODE)
      invariant ipnorm == DotRange(Halves(QuantisedAll(t, o[..], MAX_CODE)), o[..], 0, i)
    {
      code[i] := Quantised(t, o[i], MAX_CODE);
      ipnorm := ipnorm + (code[i] as real + 0.5) * o[i];
    }
    ipnormInv := if ipnorm == 0.0 then 1.0 else 1.0 / ipnorm;
    assert code[..] == QuantisedAll(t, o[..], MAX_CODE);
  }

  /** What the codes of a residual are: its normalised magnitudes, truncated at their best factor. */
  ghost predicate BestCodes(root: real -> real, r: Vector, run: Run, t: real, codes: seq<nat>)
    requires |r| > 0 && IsSquareRoot(root)
  {
    var o := NormAbs(root(Dot(r, r)), r);
    IsBestFactor(root, o, 8, run, t) && codes == QuantisedAll(t, o, MAX_CODE)
  }

  ghost predicate InverseOf(codes: seq<nat>, o: Vector, ipnormInv: real)
    requires |codes| == |o|
  {
    var ipnorm := Dot(Halves(codes), o);
    ipnormInv == if ipnorm == 0.0 then 1.0 else 1.0 / ipnorm
  }

  /** `ex_bits_code`: quantise the normalised absolute values, then complement the negative coordinates. */
  method ExBitsCode(root: real -> real, residual: array<real>, code: array<nat>)
    returns (ipnormInv: real, ghost codes: seq<nat>, ghost t: real, ghost run: Run)
    requires residual.Length == code.Length > 0 && IsSquareRoot(root)
    modifies code
    ensures BestCodes(root, residual[..], run, t, codes)
    ensures |codes| == code.Length && InRange(codes) && code[..] == ExCodes(residual[..], codes)
    ensures InverseOf(codes, NormAbs(root(Dot(residual[..], residual[..])), residual[..]), ipnormInv)
  {
    var absRes := new real[residual.Length](i requires 0 <= i < residual.Length reads residual => residual[i]);
    assert absRes[..] == residual[..];
    RowwiseNormAbs(root, absRes);
    NormAbsNonNegative(root(Dot(residual[..], residual[..])), residual[..]);
    ipnormInv, t, run := QuantizeEx(root, absRes, code);
    codes := code[..];
    Complement(residual, code);
  }

  method Complement(residual: array<real>, code: array<nat>)
    requires residual.Length == code.Length && InRange(code[..])
    modifies code
    ensures code[..] == ExCodes(residual[..], old(code[..]))
  {
    ghost var codes := code[..];
    for i := 0 to code.Length
      invariant forall j :: 0 <= j < i ==> code[j] == ExCode(residual[j], codes[j])
      invariant forall j :: i <= j < code.Length ==> code[j] == codes[j]
    {
      assert codes[i] <= MAX_CODE;
      if residual[i] < 0.0 {
        code[i] := MAX_CODE - code[i];
      }
    }
  }

  // ----- The factors -----

  lemma NormalisedTimesNorm(norm: real, r: Vector, i: nat)
    requires norm > 0.0 && i < |r|
    ensures norm * NormAbs(norm, r)[i] == Abs(r[i])
  {
  }

  /** The accumulated inner product is the one of residual and direction, divided by the norm. */
  lemma InnerProductOfCodes(norm: real, r: Vector, codes: seq<nat>, ipnorm: real, ip: real)
    requires norm > 0.0 && |codes| == |r| && InRange(codes)
    requires ipnorm == Dot(Halves(codes), NormAbs(norm, r)) && ip == norm * ipnorm
    ensures Dot(r, Direction(r, codes)) == ip
  {
    var o, half := NormAbs(norm, r), Halves(codes);
    DotSymmetric(half, o);
    DotScale(norm, o, half, ipnorm, ip);
    var a := Scale(norm, o);
    forall i | 0 <= i < |r| ensures (r[i] == a[i] && Direction(r, codes)[i] == half[i]) ||
                                    (r[i] == -a[i] && Direction(r, codes)[i] == -half[i]) {
      NormalisedTimesNorm(norm, r, i);
      ViewsAgree(r[i], codes[i]);
    }
    SignedDot(a, half, r, Direction(r, codes), |r|);
  }

  lemma RescaleIsRatio(norm: real, ipnorm: real, inv: real, l2: real, ip: real, k: real)
    requires norm > 0.0 && ip > 0.0 && ip == norm * ipnorm && l2 == norm * norm
    requires inv == (if ipnorm == 0.0 then 1.0 else 1.0 / ipnorm) && k == inv * norm
    ensures k > 0.0 && k * ip == l2
  {
    if ipnorm <= 0.0 {
      NotPositive(norm, ipnorm, ip);
    }
    assert inv * ipnorm == 1.0;
    RatioProducts(norm, ipnorm, inv, ip, k, l2);
  }

  lemma NotPositive(norm: real, ipnorm: real, ip: real)
    requires norm > 0.0 && ipnorm <= 0.0 && ip == norm * ipnorm
    ensures ip <= 0.0
  {
  }

  lemma RatioProducts(norm: real, ipnorm: real, inv: real, ip: real, k: real, l2: real)
    requires norm > 0.0 && ipnorm > 0.0 && inv * ipnorm == 1.0
    requires ip == norm * ipnorm && k == inv * norm && l2 == norm * norm
    ensures k > 0.0 && k * ip == l2
  {
    InversePositive(ipnorm, inv);
    ProductPositive(inv, norm, k);
    Regroup(inv * norm, norm, ipnorm);
    CancelInverse(norm, ipnorm, inv);
  }

  lemma InversePositive(x: real, inv: real)
    requires x > 0.0 && inv * x == 1.0
    ensures inv > 0.0
  {
  }

  lemma CancelInverse(norm: real, ipnorm: real, inv: real)
    requires inv * ipnorm == 1.0
    ensures inv * norm * norm * ipnorm == norm * norm
  {
    assert inv * norm * norm * ipnorm == (inv * ipnorm) * (norm * norm);
  }

  lemma QuotientIsProduct(k: real, ip: real, l2: real, x: real, q: real)
    requires ip > 0.0 && k * ip == l2 && q == l2 * x / ip
    ensures q == k * x
  {
    assert l2 * x == k * x * ip;
  }

  /** The guard of the degenerate branch fires exactly for a zero residual. */
  lemma DegenerateIffZero(r: Vector, codes: seq<nat>)
    requires |codes| == |r| && InRange(codes)
    ensures !(Dot(r, r) > 0.0) || !(Dot(r, Direction(r, codes)) > 0.0) <==> r == Zero(|r|)
  {
    if r == Zero(|r|) {
      RangeZero(r, r, 0, |r|);
    } else {
      var i: nat :| i < |r| && r[i] != 0.0;
      RangeSelfPositive(r, |r|, i);
      DirectionPositive(r, codes, |r|, i);
    }
  }

  ghost predicate FactorsOf(metric: Metric, l2: real, ipCentroid: real, ipResidual: real, dot: real, inv: real,
                            norm: real,
                            fAdd: real, fRescale: real)
    requires ipResidual > 0.0
  {
    if metric == L2 then fAdd == l2 + 2.0 * (l2 * ipCentroid / ipResidual) && fRescale == inv * -2.0 * norm
    else fAdd == 1.0 - dot + l2 * ipCentroid / ipResidual && fRescale == inv * -norm
  }

  lemma FactorsEncode(metric: Metric, x: Vector, c: Vector, codes: seq<nat>, norm: real, inv: real, k: real, code: Code)
    requires |x| == |c| == |codes| && InRange(codes)
    requires code.bits == SignBits(Sub(x, c)) && code.ex == ExCodes(Sub(x, c), codes)
    requires Sub(x, c) != Zero(|x|) && RootOf(norm, Dot(Sub(x, c), Sub(x, c))) && norm > 0.0 && k == inv * norm
    requires InverseOf(codes, NormAbs(norm, Sub(x, c)), inv)
    requires Dot(Sub(x, c), Direction(Sub(x, c), codes)) > 0.0
    requires FactorsOf(metric, Dot(Sub(x, c), Sub(x, c)), Dot(c, Direction(Sub(x, c), codes)),
                       Dot(Sub(x, c), Direction(Sub(x, c), codes)), Dot(Sub(x, c), c), inv, norm,
                       code.fAdd, code.fRescale)
    ensures Encodes(metric, x, c, codes, k, code)
  {
    var r := Sub(x, c);
    var u := Direction(r, codes);
    var l2, ip, ipc := Dot(r, r), Dot(r, u), Dot(c, u);
    RatioHolds(r, codes, norm, inv, k, l2, ip);
    FactorValues(metric, l2, ipc, ip, Dot(r, c), inv, norm, k, code.fAdd, code.fRescale);
  }

  lemma FactorValues(metric: Metric, l2: real, ipc: real, ip: real, dot: real, inv: real, norm: real, k: real,
                     fAdd: real, fRescale: real)
    requires ip > 0.0 && k * ip == l2 && k == inv * norm
    requires FactorsOf(metric, l2, ipc, ip, dot, inv, norm, fAdd, fRescale)
    ensures fRescale == (if metric == L2 then -2.0 * k else -k)
    ensures fAdd == (if metric == L2 then l2 + 2.0 * (k * ipc) else 1.0 - dot + k * ipc)
  {
    QuotientIsProduct(k, ip, l2, ipc, l2 * ipc / ip);
    RescaleSigns(inv, norm, k);
  }

  lemma RatioHolds(r: Vector, codes: seq<nat>, norm: real, inv: real, k: real, l2: real, ip: real)
    requires |r| == |codes| && InRange(codes) && norm > 0.0 && k == inv * norm && l2 == norm * norm
    requires InverseOf(codes, NormAbs(norm, r), inv)
    requires ip == Dot(r, Direction(r, codes)) && ip > 0.0
    ensures k > 0.0 && k * ip == l2
  {
    var ipnorm := Dot(Halves(codes), NormAbs(norm, r));
    InnerProductOfCodes(norm, r, codes, ipnorm, norm * ipnorm);
    RescaleIsRatio(norm, ipnorm, inv, l2, ip, k);
  }

  lemma RescaleSigns(inv: real, norm: real, k: real)
    requires k == inv * norm
    ensures inv * -2.0 * norm == -2.0 * k && inv * -norm == -k
  {
  }

  lemma NormPositive(norm: real, r: Vector)
    requires RootOf(norm, Dot(r, r)) && Dot(r, r) > 0.0
    ensures norm > 0.0
  {
    if norm == 0.0 {
      ZeroTimes(norm, norm);
    }
  }

  /** `quantize_ext_code`: the extension codes and the two factors. */
  method QuantizeExtCode(root: real -> real, metric: Metric, vec: array<real>, centroid: array<real>, ex: array<nat>)
    returns (fAdd: real, fRescale: real, ghost codes: seq<nat>, ghost k: real, ghost t: real, ghost run: Run)
    requires vec.Length == centroid.Length == ex.Length > 0 && IsSquareRoot(root)
    modifies ex
    ensures BestCodes(root, Sub(vec[..], centroid[..]), run, t, codes)
    ensures Encodes(metric, vec[..], centroid[..], codes, k,
                    Code(SignBits(Sub(vec[..], centroid[..])), ex[..], fAdd, fRescale))
  {
    var residual := new real[vec.Length];
    VecSub(vec, centroid, residual);
    var inv;
    inv, codes, t, run := ExBitsCode(root, residual, ex);
    ghost var x, c := vec[..], centroid[..];
    var l2 := Dot(residual[..], residual[..]);
    RangeSelf(residual[..], residual.Length);
    assert RootOf(root(l2), l2);
    fAdd, fRescale, k := Factors(metric, residual[..], centroid[..], ex[..], codes, inv, root(l2), x);
  }

  /** The closed formulas at the end of `quantize_ext_code`. */
  method Factors(metric: Metric, r: Vector, c: Vector, ex: seq<nat>, ghost codes: seq<nat>, inv: real, norm: real,
                 ghost x: Vector)
    returns (fAdd: real, fRescale: real, ghost k: real)
    requires |x| == |c| == |codes| && r == Sub(x, c) && InRange(codes) && ex == ExCodes(r, codes)
    requires RootOf(norm, Dot(r, r))
    requires InverseOf(codes, NormAbs(norm, r), inv)
    ensures Encodes(metric, x, c, codes, k, Code(SignBits(r), ex, fAdd, fRescale))
  {
    var xu := seq(|r|, i requires 0 <= i < |r| => ex[i] as real + (if r[i] >= 0.0 then LEVELS else 0.0) - 255.5);
    assert xu == Direction(r, codes);
    var l2, ipr, ipc := Dot(r, r), Dot(r, xu), Dot(c, xu);
    DegenerateIffZero(r, codes);
    if !(l2 > 0.0) || !(ipr > 0.0) {
      return if metric == L2 then 0.0 else 1.0, 0.0, 0.0;
    }
    k := inv * norm;
    fAdd, fRescale := FactorFormulas(metric, l2, ipc, ipr, Dot(r, c), inv, norm);
    NormPositive(norm, r);
    FactorsEncode(metric, x, c, codes, norm, inv, k, Code(SignBits(r), ex, fAdd, fRescale));
  }

  method FactorFormulas(metric: Metric, l2: real, ipc: real, ipr: real, dot: real, inv: real, norm: real)
    returns (fAdd: real, fRescale: real)
    requires ipr > 0.0
    ensures FactorsOf(metric, l2, ipc, ipr, dot, inv, norm, fAdd, fRescale)
  {
    if metric == L2 {
      fAdd := l2 + 2.0 * (l2 * ipc / ipr);
      fRescale := inv * -2.0 * norm;
    } else {
      fAdd := 1.0 - dot + l2 * ipc / ipr;
      fRescale := inv * -norm;
    }
  }

  // ----- Reconstruction -----

  function ResidualScale(metric: Metric, fRescale: real): real {
    if metric == L2 then -0.5 * fRescale else -fRescale
  }

  /** The loop of `reconstruct` before the inverse rotation. */
  method ReconstructRotated(metric: Metric, code: Code, centroid: Vector, rotated: array<real>)
    requires |code.bits| == |code.ex| == |centroid| == rotated.Length
    requires forall i :: 0 <= i < |code.bits| ==> code.bits[i] <= 1 && code.ex[i] <= MAX_CODE
    modifies rotated
    ensures rotated[..] == Add(centroid, Scale(ResidualScale(metric, code.fRescale), DecodedVector(code.bits, code.ex)))
  {
    var scale := ResidualScale(metric, code.fRescale);
    for i := 0 to rotated.Length
      invariant forall j :: 0 <= j < i ==> rotated[j] == centroid[j] + scale * Decoded(code.bits[j], code.ex[j])
    {
      var positive := code.bits[i] == 1;
      var magnitude := if positive then code.ex[i] as real + 0.5 else (MAX_CODE - code.ex[i]) as real + 0.5;
      rotated[i] := centroid[i] + (if positive then magnitude else -magnitude) * scale;
      MagnitudeIsDecoded(code.bits[i], code.ex[i], magnitude, scale);
    }
    ghost var d := DecodedVector(code.bits, code.ex);
    forall j | 0 <= j < rotated.Length ensures rotated[j] == Add(centroid, Scale(scale, d))[j] {
      var y := d[j];
      assert Scale(scale, d)[j] == scale * y;
    }
  }

  lemma MagnitudeIsDecoded(bit: nat, ex: nat, magnitude: real, scale: real)
    requires bit <= 1 && ex <= MAX_CODE
    requires magnitude == if bit == 1 then ex as real + 0.5 else (MAX_CODE - ex) as real + 0.5
    ensures (if bit == 1 then magnitude else -magnitude) * scale == scale * Decoded(bit, ex)
  {
  }

  /** The decoder and the estimator share one vector. It is the centroid plus `r̂` if and only if no residual
      coordinate is zero, or all are. */
  lemma ReconstructsResidual(metric: Metric, x: Vector, c: Vector, codes: seq<nat>, k: real, code: Code)
    requires |x| == |c| && Encodes(metric, x, c, codes, k, code)
    ensures Add(c, Scale(ResidualScale(metric, code.fRescale), DecodedVector(code.bits, code.ex)))
         == Add(c, ReconstructedResidual(x, c, codes, k))
       <==> NoZero(Sub(x, c)) || Sub(x, c) == Zero(|x|)
  {
    var r, s := Sub(x, c), ResidualScale(metric, code.fRescale);
    assert s == k;
    var u, d := Direction(r, codes), DecodedVector(code.bits, code.ex);
    if NoZero(r) || r == Zero(|x|) {
      forall i | 0 <= i < |x| ensures Scale(s, d)[i] == Scale(k, u)[i] {
        CoordinateDecodes(r, codes, k, i);
      }
    } else {
      var i: nat :| i < |r| && r[i] == 0.0;
      CoordinateDecodes(r, codes, k, i);
      assert Add(c, Scale(s, d))[i] != Add(c, Scale(k, u))[i];
    }
  }

  /** A decoded coordinate is off by 256 where the residual is zero. */
  lemma CoordinateDecodes(r: Vector, codes: seq<nat>, k: real, i: nat)
    requires |codes| == |r| && InRange(codes) && i < |r| && (r == Zero(|r|) ==> k == 0.0)
    ensures var d, u := DecodedVector(SignBits(r), ExCodes(r, codes)), Direction(r, codes);
            Scale(k, d)[i] == Scale(k, u)[i] - (if r[i] == 0.0 then LEVELS * k else 0.0)
  {
    var d, u := DecodedVector(SignBits(r), ExCodes(r, codes)), Direction(r, codes);
    ViewsAgree(r[i], codes[i]);
    Distribute(u[i], if r[i] == 0.0 then LEVELS else 0.0, k);
    EqualProducts(k, d[i], u[i] - (if r[i] == 0.0 then LEVELS else 0.0));
  }
}
