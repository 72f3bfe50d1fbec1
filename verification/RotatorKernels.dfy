/** The rotation in place (common/rabitq/rotator.cpp, common/rabitq/rotator.h and the scalar kernels of
    common/distance/src/rabitq_template.cpp), proved against the vector functions of `Rotator`. */
module RotatorKernels {
  import opened Bits
  import opened Vectors
  import opened Rotator

  method FloorLog2(x0: nat) returns (ret: nat)
    requires x0 >= 1
    ensures Pow2(ret) <= x0 < 2 * Pow2(ret)
  {
    var x := x0;
    ret := 0;
    assert Quotient(x0, 1) == x0;
    while x > 1
      invariant x >= 1 && x == Quotient(x0, Pow2(ret))
    {
      HalvedQuotient(x0, x, ret);
      ret := ret + 1;
      x := x / 2;
    }
    DivMod(x0, Pow2(ret));
  }

  lemma HalvedQuotient(x0: nat, x: nat, ret: nat)
    requires x == Quotient(x0, Pow2(ret))
    ensures x / 2 == Quotient(x0, Pow2(ret + 1))
  {
    DivDiv(x0, Pow2(ret), 2);
  }

  // ----- Kernels -----

  method VecRescale(a: array<real>, lo: nat, n: nat, x: real)
    requires lo + n <= a.Length
    modifies a
    ensures a[..] == Put(old(a[..]), lo, Scale(x, old(a[..])[lo..lo + n]))
  {
    ghost var v := a[..];
    for i := 0 to n
      invariant forall j :: 0 <= j < a.Length ==> a[j] == if lo <= j < lo + i then x * v[j] else v[j]
    {
      a[lo + i] := x * a[lo + i];
    }
    Rescaled(v, lo, n, x, a[..]);
  }

  lemma Rescaled(v: Vector, lo: nat, n: nat, x: real, w: Vector)
    requires lo + n <= |v| == |w|
    requires forall j :: 0 <= j < |w| ==> w[j] == if lo <= j < lo + n then x * v[j] else v[j]
    ensures w == Put(v, lo, Scale(x, v[lo..lo + n]))
  {
    forall j | 0 <= j < |w| ensures w[j] == Put(v, lo, Scale(x, v[lo..lo + n]))[j] {
      if lo <= j < lo + n {
        var y := v[j];
        assert v[lo..lo + n][j - lo] == y;
      }
    }
  }

  /** The loop shared by the transform and the walk: sums to the first half, differences to the second. */
  method ButterflyLoop(a: array<real>, lo: nat, half: nat, ghost p: Vector, ghost q: Vector)
    requires lo + 2 * half <= a.Length && |p| == |q| == half
    requires SameWindow(p, 0, a[..], lo, half) && SameWindow(q, 0, a[..], lo + half, half)
    modifies a
    ensures a[..] == Put(old(a[..]), lo, Butterfly(p, q))
  {
    ghost var v := a[..];
    for i := 0 to half
      invariant forall j :: 0 <= j < i ==> a[lo + j] == p[j] + q[j]
      invariant forall j :: 0 <= j < i ==> a[lo + half + j] == p[j] - q[j]
      invariant forall j :: lo + i <= j < lo + half ==> a[j] == v[j]
      invariant forall j :: lo + half + i <= j < a.Length ==> a[j] == v[j]
      invariant forall j :: 0 <= j < lo ==> a[j] == v[j]
    {
      assert p[i] == v[i + lo] && q[i] == v[i + (lo + half)];
      var x, y := a[lo + i], a[lo + half + i];
      a[lo + i] := x + y;
      a[lo + half + i] := x - y;
    }
    ButterflyPut(v, lo, half, p, q, a[..]);
  }

  lemma ButterflyPut(v: Vector, lo: nat, half: nat, p: Vector, q: Vector, w: Vector)
    requires |v| == |w| && lo + 2 * half <= |v| && |p| == |q| == half
    requires forall j :: 0 <= j < half ==> w[lo + j] == p[j] + q[j]
    requires forall j :: 0 <= j < half ==> w[lo + half + j] == p[j] - q[j]
    requires forall j :: 0 <= j < |v| && !(lo <= j < lo + 2 * half) ==> w[j] == v[j]
    ensures w == Put(v, lo, Butterfly(p, q))
  {
    forall j | 0 <= j < |v| ensures w[j] == Put(v, lo, Butterfly(p, q))[j] {
      if lo <= j < lo + half {
        assert w[lo + (j - lo)] == p[j - lo] + q[j - lo];
      } else if lo + half <= j < lo + 2 * half {
        assert w[lo + half + (j - lo - half)] == p[j - lo - half] - q[j - lo - half];
      }
    }
  }

  method KacsWalk(a: array<real>)
    requires a.Length % 2 == 0
    modifies a
    ensures a[..] == KacWalk(old(a[..]))
  {
    ghost var v := a[..];
    var half := a.Length / 2;
    ButterflyLoop(a, 0, half, v[..half], v[half..]);
  }

  /** The scalar sign flip: bit `i % 8` of byte `i / 8` decides. */
  method FlipSign(r: Params, stage: nat, a: array<real>)
    requires Valid(r) && stage < 4 && a.Length == r.padded
    modifies a
    ensures a[..] == Flip(r, stage, old(a[..]))
  {
    ghost var v := a[..];
    for i := 0 to a.Length
      invariant forall j :: i <= j < a.Length ==> a[j] == v[j]
      invariant forall j :: 0 <= j < i ==> a[j] == Flip(r, stage, v)[j]
    {
      MaskBit(r.padded, stage, i);
      if Bit(r.flip[stage * (r.padded / 8) + i / 8], i % 8) == 1 {
        a[i] := -a[i];
      }
    }
  }

  /** The recursive transform: both halves, then the butterfly. */
  method FhtFloat(a: array<real>, lo: nat, k: nat)
    requires lo + Pow2(k) <= a.Length
    modifies a
    ensures a[..] == Put(old(a[..]), lo, Hadamard(k, old(a[..]), lo))
    decreases k, 0
  {
    ghost var v := a[..];
    if k == 0 {
      assert a[..] == Put(v, lo, [v[lo]]);
    } else {
      FhtHalves(a, lo, k - 1, Pow2(k - 1), v);
    }
  }

  method FhtHalves(a: array<real>, lo: nat, k: nat, half: nat, ghost v: Vector)
    requires half == Pow2(k) && lo + 2 * half <= a.Length && v == a[..]
    modifies a
    ensures a[..] == Put(v, lo, Butterfly(Hadamard(k, v, lo), Hadamard(k, v, lo + half)))
    decreases k, 2
  {
    TransformHalves(a, lo, k, half, v);
    ghost var p, q := Hadamard(k, v, lo), Hadamard(k, v, lo + half);
    CombineHalves(a, lo, half, p, q, v);
  }

  method CombineHalves(a: array<real>, lo: nat, half: nat, ghost p: Vector, ghost q: Vector, ghost v: Vector)
    requires lo + 2 * half <= a.Length && |p| == |q| == half && DiffersIn(a[..], v, lo, lo + 2 * half)
    requires SameWindow(p, 0, a[..], lo, half) && SameWindow(q, 0, a[..], lo + half, half)
    modifies a
    ensures a[..] == Put(v, lo, Butterfly(p, q))
  {
    ghost var v2 := a[..];
    ButterflyLoop(a, lo, half, p, q);
    HalvesOverwritten(v, lo, half, v2, Butterfly(p, q));
  }

  method TransformHalves(a: array<real>, lo: nat, k: nat, half: nat, ghost v: Vector)
    requires half == Pow2(k) && lo + 2 * half <= a.Length && v == a[..]
    modifies a
    ensures SameWindow(Hadamard(k, v, lo), 0, a[..], lo, half)
    ensures SameWindow(Hadamard(k, v, lo + half), 0, a[..], lo + half, half)
    ensures DiffersIn(a[..], v, lo, lo + 2 * half)
    decreases k, 1
  {
    FhtFloat(a, lo, k);
    ghost var v1 := a[..];
    FhtFloat(a, lo + half, k);
    HalvesAreThere(k, v, lo, half, v1, a[..]);
  }

  ghost predicate DiffersIn(v: Vector, w: Vector, lo: nat, hi: nat) {
    |v| == |w| && forall j :: 0 <= j < |v| && !(lo <= j < hi) ==> v[j] == w[j]
  }

  lemma HalvesAreThere(k: nat, v: Vector, lo: nat, half: nat, v1: Vector, v2: Vector)
    requires half == Pow2(k) && lo + 2 * half <= |v| == |v1|
    requires v1 == Put(v, lo, Hadamard(k, v, lo)) && v2 == Put(v1, lo + half, Hadamard(k, v1, lo + half))
    ensures SameWindow(Hadamard(k, v, lo), 0, v2, lo, half)
    ensures SameWindow(Hadamard(k, v, lo + half), 0, v2, lo + half, half)
    ensures DiffersIn(v2, v, lo, lo + 2 * half)
  {
    HadamardLocal(k, v1, lo + half, v, lo + half);
    TwoPuts(v, lo, half, Hadamard(k, v, lo), Hadamard(k, v, lo + half), v1, v2);
  }

  lemma TwoPuts(v: Vector, lo: nat, half: nat, p: Vector, q: Vector, v1: Vector, v2: Vector)
    requires |p| == |q| == half && lo + 2 * half <= |v| && v1 == Put(v, lo, p) && v2 == Put(v1, lo + half, q)
    ensures SameWindow(p, 0, v2, lo, half) && SameWindow(q, 0, v2, lo + half, half)
    ensures DiffersIn(v2, v, lo, lo + 2 * half)
  {
  }

  lemma HalvesOverwritten(v: Vector, lo: nat, half: nat, v2: Vector, w: Vector)
    requires lo + 2 * half <= |v| && |w| == 2 * half && DiffersIn(v2, v, lo, lo + 2 * half)
    ensures Put(v2, lo, w) == Put(v, lo, w)
  {
  }

  // ----- The rotator -----

  method NormalFht(a: array<real>, lo: nat, k: nat, n: nat, fac: real)
    requires n == Pow2(k) && lo + n <= a.Length
    modifies a
    ensures a[..] == FhtAt(k, fac, old(a[..]), lo)
  {
    ghost var v := a[..];
    FhtFloat(a, lo, k);
    VecRescale(a, lo, n, fac);
    PutPut(v, lo, Hadamard(k, v, lo), fac);
  }

  method FhtStep(r: Params, stage: nat, a: array<real>)
    requires Valid(r) && stage < 4 && a.Length == r.padded
    modifies a
    ensures a[..] == Fht(r, stage, old(a[..]))
  {
    var start := r.padded - Pow2(r.log);
    NormalFht(a, if stage == 1 || stage == 3 then start else 0, r.log, Pow2(r.log), r.fac);
  }

  lemma PutPut(v: Vector, lo: nat, h: Vector, x: real)
    requires lo + |h| <= |v|
    ensures Put(Put(v, lo, h), lo, Scale(x, Put(v, lo, h)[lo..lo + |h|])) == Put(v, lo, Scale(x, h))
  {
    assert Put(v, lo, h)[lo..lo + |h|] == h;
  }

  method CopyFront(work: array<real>, data: array<real>)
    requires data.Length <= work.Length && data != work
    modifies data
    ensures data[..] == work[..data.Length]
  {
    for i := 0 to data.Length
      invariant forall j :: 0 <= j < i ==> data[j] == work[j]
    {
      data[i] := work[i];
    }
  }

  class FhtKacRotator {
    const r: Params

    /** `fac` is the inverse square root of the largest power of two up to `dim`; the flip bytes are random. */
    constructor (dim: nat, padded: nat, fac: real, flip: seq<nat>)
      requires 1 <= dim <= padded && padded % 64 == 0 && |flip| == 4 * padded / 8
      requires forall log :: Pow2(log) <= dim < 2 * Pow2(log) ==> UnitFactor(fac, Pow2(log) as real)
      ensures Valid(r) && r.dim == dim && r.padded == padded && r.fac == fac && r.flip == flip
    {
      var log := FloorLog2(dim);
      r := Params(dim, padded, log, fac, flip);
    }

    method RunStage(stage: nat, a: array<real>)
      requires Valid(r) && stage < 4 && a.Length == r.padded
      modifies a
      ensures a[..] == Stage(r, stage, old(a[..]))
    {
      FlipSign(r, stage, a);
      FhtStep(r, stage, a);
      if Pow2(r.log) != r.padded {
        KacsWalk(a);
      }
    }

    method UndoStage(stage: nat, a: array<real>)
      requires Valid(r) && stage < 4 && a.Length == r.padded
      modifies a
      ensures a[..] == Unstage(r, stage, old(a[..]))
    {
      if Pow2(r.log) != r.padded {
        KacsWalk(a);
      }
      FhtStep(r, stage, a);
      FlipSign(r, stage, a);
    }

    method CopyPadded(data: array<real>, rotated: array<real>)
      requires Valid(r) && data.Length == r.dim && rotated.Length == r.padded && data != rotated
      modifies rotated
      ensures rotated[..] == Pad(r, data[..])
    {
      for i := 0 to r.dim
        invariant forall j :: 0 <= j < i ==> rotated[j] == data[j]
      {
        rotated[i] := data[i];
      }
      for i := r.dim to r.padded
        invariant forall j :: 0 <= j < r.dim ==> rotated[j] == data[j]
        invariant forall j :: r.dim <= j < i ==> rotated[j] == 0.0
      {
        rotated[i] := 0.0;
      }
    }

    method FinalScale(a: array<real>)
      requires a.Length == r.padded
      modifies a
      ensures a[..] == Scale(LastScale(r), old(a[..]))
    {
      ghost var v := a[..];
      if Pow2(r.log) != r.padded {
        VecRescale(a, 0, r.padded, 0.25);
      }
      RescaledAll(r, v, a[..]);
    }

    method RunStages(a: array<real>)
      requires Valid(r) && a.Length == r.padded
      modifies a
      ensures a[..] == Stages(r, old(a[..]))
    {
      RunStage(0, a);
      RunStage(1, a);
      RunStage(2, a);
      RunStage(3, a);
    }

    method Rotate(data: array<real>, rotated: array<real>)
      requires Valid(r) && data.Length == r.dim && rotated.Length == r.padded && data != rotated
      modifies rotated
      ensures rotated[..] == Rotated(r, data[..])
    {
      CopyPadded(data, rotated);
      RunStages(rotated);
      FinalScale(rotated);
    }

    method UndoStages(a: array<real>)
      requires Valid(r) && a.Length == r.padded
      modifies a
      ensures a[..] == Unstages(r, old(a[..]))
    {
      UndoStage(3, a);
      UndoStage(2, a);
      UndoStage(1, a);
      UndoStage(0, a);
    }

    /** Consumes the work buffer. */
    method InverseRotateInplace(work: array<real>, data: array<real>)
      requires Valid(r) && data.Length == r.dim && work.Length == r.padded && data != work
      modifies work, data
      ensures data[..] == Unrotated(r, old(work[..]))
    {
      UndoStages(work);
      FinalScale(work);
      CopyFront(work, data);
    }
  }

  lemma RescaledAll(r: Params, v: Vector, w: Vector)
    requires |v| == r.padded
    requires Walks(r) ==> w == Put(v, 0, Scale(0.25, v[0..0 + r.padded]))
    requires !Walks(r) ==> w == v
    ensures w == Scale(LastScale(r), v)
  {
    if Walks(r) {
      assert v[0..0 + r.padded] == v;
    } else {
      ScaleOne(v);
    }
  }

  /** Rotating and rotating back leaves the vector as it was. */
  method RoundTrip(rotator: FhtKacRotator, data: array<real>, work: array<real>, back: array<real>)
    requires Valid(rotator.r) && data.Length == back.Length == rotator.r.dim && work.Length == rotator.r.padded
    requires data != work && back != work && data != back
    modifies work, back
    ensures back[..] == data[..]
  {
    rotator.Rotate(data, work);
    InverseUndoesRotation(rotator.r, data[..]);
    rotator.InverseRotateInplace(work, back);
  }
}
