/** Product quantizer configuration and codes (common/quantizer/product_quantizer.cpp). */
module ProductQuantizer {
  import opened Basics
  import opened Bits
  import opened PqBitstream
  import Vectors

  // size_t is 64 bits wide.
  const SIZE_MAX: nat := 0xFFFF_FFFF_FFFF_FFFF

  datatype Derived = Accepted(dsub: nat, codeSize: nat, ksub: nat) | Rejected

  /** A size_t keeps the low 64 bits of a result. */
  function Wrapped(x: nat): (y: nat)
    ensures x <= SIZE_MAX ==> y == x
  {
    x % (SIZE_MAX + 1)
  }

  /** The configuration is rejected exactly when it is malformed or when the code size or the
      centroid table would not fit in a size_t; an accepted one is computed without wrap-around. */
  function SetDerivedValues(d: nat, m: nat, nbits: nat): (r: Derived)
    ensures r.Rejected? <==>
              || d == 0 || m == 0 || d % m != 0
              || nbits == 0 || nbits >= 64
              || m * nbits + 7 > SIZE_MAX
              || d * Pow2(nbits) * 4 > SIZE_MAX
    ensures r.Accepted? ==> r.dsub * m == d && r.codeSize == CodeSize(nbits, m) && r.ksub == Pow2(nbits)
  {
    if d == 0 || m == 0 || d % m != 0 then Rejected
    else if nbits == 0 || nbits >= 64 || (FitsBelow(m, nbits, SIZE_MAX - 7); m > (SIZE_MAX - 7) / nbits) then Rejected
    else
      var ksub := Pow2(nbits);
      if (FitsBelow(d, ksub, SIZE_MAX); d > SIZE_MAX / ksub) || Wrapped(d * ksub) > SIZE_MAX / 4 then Rejected
      else DivMod(d, m); Accepted(d / m, Wrapped(nbits * m + 7) / 8, ksub)
  }

  /** The division test for overflow is exact. */
  lemma FitsBelow(a: nat, b: nat, max: nat)
    requires b > 0
    ensures a > max / b <==> a * b > max
  {
    DivMod(max, b);
    if a > max / b {
      MulMono(max / b + 1, a, b);
      Distribute(max / b, 1, b);
    } else {
      MulMono(a, max / b, b);
    }
  }

  // ----- The nearest centroid -----

  type Vector = Vectors.Vector

  ghost predicate AllOfDim(table: seq<Vector>, dim: nat) {
    forall i :: 0 <= i < |table| ==> |table[i]| == dim
  }

  /** Row `k` is at the least squared distance from `x` among the first `ny` rows. */
  ghost predicate IsNearest(x: Vector, table: seq<Vector>, ny: nat, k: nat)
    requires ny <= |table| && AllOfDim(table, |x|)
  {
    k < ny && forall i :: 0 <= i < ny ==> Vectors.DistanceSquared(x, table[k]) <= Vectors.DistanceSquared(x, table[i])
  }

  /** `fvec_L2sqr_ny_nearest_ref`: the first nearest of `ny` rows, and 0 when there are none. */
  method NearestRow(x: Vector, table: seq<Vector>, ny: nat) returns (k: nat)
    requires ny <= |table| && AllOfDim(table, |x|)
    ensures ny == 0 ==> k == 0
    ensures ny > 0 ==> IsNearest(x, table, ny, k)
    ensures forall i :: 0 <= i < k ==> Vectors.DistanceSquared(x, table[k]) < Vectors.DistanceSquared(x, table[i])
  {
    var distances := seq(ny, i requires 0 <= i < ny => Vectors.DistanceSquared(x, table[i]));
    k := 0;
    var least := None;
    for i := 0 to ny
      invariant if i == 0 then least == None && k == 0 else k < i && least == Some(distances[k])
      invariant forall j :: 0 <= j < i ==> distances[k] <= distances[j]
      invariant forall j :: 0 <= j < k ==> distances[k] < distances[j]
    {
      if least == None || distances[i] < least.value {
        least := Some(distances[i]);
        k := i;
      }
    }
    assert forall i :: 0 <= i < ny ==> distances[i] == Vectors.DistanceSquared(x, table[i]);
  }

  /** A cast to an unsigned integer of `width` bits. */
  function Cast(x: nat, width: nat): nat { x % Pow2(width) }

  /** The kernel's row count is a 32-bit cast of the table's: exact below 32 bits of code, nothing from there on. */
  lemma RowCount(nbits: nat, width: nat)
    ensures Cast(Pow2(nbits), width) == if nbits < width then Pow2(nbits) else 0
  {
    if nbits < width {
      Pow2StrictMono(nbits, width);
      DivModUnique(Pow2(nbits), Pow2(width), 0, Pow2(nbits));
    } else {
      Pow2Sum(nbits - width, width, nbits);
      DivModUnique(Pow2(nbits), Pow2(width), Pow2(nbits - width), 0);
    }
  }

  // ----- Codes -----

  function Concat(parts: seq<Vector>): Vector {
    if parts == [] then [] else Concat(parts[..|parts| - 1]) + parts[|parts| - 1]
  }

  /** A trained quantizer: one table of `2^nbits` centroids of `dsub` coordinates per subquantizer. */
  datatype Quantizer = Quantizer(nbits: nat, dsub: nat, centroids: seq<seq<Vector>>) {

    ghost predicate Valid() {
      1 <= nbits <= 63 && forall m :: 0 <= m < |centroids| ==> TableOk(m)
    }

    ghost predicate TableOk(m: nat)
      requires m < |centroids|
    {
      |centroids[m]| == Pow2(nbits) && AllOfDim(centroids[m], dsub)
    }

    /** A vector as the subvectors of the subquantizers. */
    ghost predicate IsInput(parts: seq<Vector>) {
      |parts| == |centroids| && AllOfDim(parts, dsub)
    }

    /** Subvector `m` replaced by its centroid number `codes[m]`. */
    ghost function Chosen(codes: seq<nat>): seq<Vector>
      requires Valid() && |codes| == |centroids| && CodesFit(codes, nbits)
    {
      seq(|codes|, m requires 0 <= m < |codes| => CentroidAt(codes, m))
    }

    ghost function CentroidAt(codes: seq<nat>, m: nat): (v: Vector)
      requires Valid() && |codes| == |centroids| && CodesFit(codes, nbits) && m < |codes|
      ensures |v| == dsub
    {
      assert TableOk(m) && codes[m] < Pow2(nbits);
      centroids[m][codes[m]]
    }

    /** The codes name a nearest centroid for every subvector. */
    ghost predicate AllNearest(parts: seq<Vector>, codes: seq<nat>)
      requires Valid() && IsInput(parts) && |codes| == |centroids|
    {
      forall m :: 0 <= m < |codes| ==> TableOk(m) && IsNearest(parts[m], centroids[m], Pow2(nbits), codes[m])
    }
  }

  /** The centroid search over all subvectors: nearest ones below 32 bits of code, otherwise the first of each table. */
  method NearestCodes(q: Quantizer, parts: seq<Vector>) returns (codes: seq<nat>)
    requires q.Valid() && q.IsInput(parts)
    ensures |codes| == |parts| && CodesFit(codes, q.nbits)
    ensures q.nbits < 32 ==> q.AllNearest(parts, codes)
    ensures q.nbits >= 32 ==> forall m :: 0 <= m < |codes| ==> codes[m] == 0
  {
    codes := [];
    var ny := Cast(Pow2(q.nbits), 32);
    RowCount(q.nbits, 32);
    for m := 0 to |parts|
      invariant |codes| == m && CodesFit(codes, q.nbits)
      invariant q.nbits < 32 ==>
                  forall i :: 0 <= i < m ==>
                    q.TableOk(i) && IsNearest(parts[i], q.centroids[i], Pow2(q.nbits), codes[i])
      invariant q.nbits >= 32 ==> forall i :: 0 <= i < m ==> codes[i] == 0
    {
      assert q.TableOk(m);
      var k := NearestRow(parts[m], q.centroids[m], ny);
      codes := codes + [k];
    }
  }

  /** `compute_code`: the centroid numbers, packed by the encoder the width selects. */
  method ComputeCode(q: Quantizer, parts: seq<Vector>) returns (bytes: seq<Byte>, ghost codes: seq<nat>)
    requires q.Valid() && q.IsInput(parts)
    ensures |codes| == |parts| && CodesFit(codes, q.nbits)
    ensures q.nbits < 32 ==> q.AllNearest(parts, codes)
    ensures q.nbits >= 32 ==> forall m :: 0 <= m < |codes| ==> codes[m] == 0
    ensures |bytes| == CodeSize(q.nbits, |parts|) && LE(bytes) == Stream(codes, q.nbits)
  {
    var indices := NearestCodes(q, parts);
    codes := indices;
    bytes := Pack(q.nbits, indices);
  }

  method Pack(nbits: nat, indices: seq<nat>) returns (bytes: seq<Byte>)
    requires 1 <= nbits <= 63 && CodesFit(indices, nbits)
    ensures |bytes| == CodeSize(nbits, |indices|) && LE(bytes) == Stream(indices, nbits)
  {
    var size := CodeSize(nbits, |indices|);
    var code := new Byte[size](_ => 0);
    CodeSizeNarrow(|indices|);
    if nbits == 8 {
      Encode8(code, indices);
    } else if nbits == 16 {
      Encode16(code, indices);
    } else {
      EncodeGeneric(code, nbits, indices);
    }
    bytes := code[..size];
  }

  /** `decode_code`: the centroids the bytes name. The range check on a decoded centroid number is an
      assertion here: it never fails. */
  method DecodeCode(q: Quantizer, bytes: seq<Byte>) returns (x: Vector, codes: seq<nat>)
    requires q.Valid() && |bytes| == CodeSize(q.nbits, |q.centroids|)
    ensures |codes| == |q.centroids| && CodesFit(codes, q.nbits)
    ensures forall k :: 0 <= k < |codes| ==> codes[k] == CodeAt(bytes, q.nbits, k)
    ensures x == Concat(q.Chosen(codes))
  {
    if q.nbits == 8 {
      codes := Decode8(bytes, |q.centroids|);
    } else if q.nbits == 16 {
      codes := Decode16(bytes, |q.centroids|);
    } else {
      codes := DecodeGeneric(bytes, q.nbits, |q.centroids|);
    }
    x := Gather(q, codes);
  }

  method Gather(q: Quantizer, codes: seq<nat>) returns (x: Vector)
    requires q.Valid() && |codes| == |q.centroids| && CodesFit(codes, q.nbits)
    ensures x == Concat(q.Chosen(codes))
  {
    x := [];
    ghost var chosen := q.Chosen(codes);
    for m := 0 to |codes|
      invariant x == Concat(chosen[..m])
    {
      assert q.TableOk(m);
      assert codes[m] < Pow2(q.nbits); // the out-of-range error cannot be raised
      x := x + q.centroids[m][codes[m]];
      assert chosen[..m + 1][..m] == chosen[..m];
    }
    assert chosen[..|codes|] == chosen;
  }

  // ----- The nearest vector -----

  lemma DistanceOfConcat(u: Vector, v: Vector, u': Vector, v': Vector)
    requires |u| == |u'| && |v| == |v'|
    ensures Vectors.DistanceSquared(u + v, u' + v') == Vectors.DistanceSquared(u, u') + Vectors.DistanceSquared(v, v')
  {
    var a, b, ab := Vectors.Sub(u, u'), Vectors.Sub(v, v'), Vectors.Sub(u + v, u' + v');
    Vectors.RangeSame(ab, ab, 0, a, a, 0, |a|);
    Vectors.RangeSame(ab, ab, |a|, b, b, 0, |b|);
    Vectors.RangeSplit(ab, ab, 0, |a|, |ab|);
  }

  /** Vectors that are nearest part by part are nearest as a whole. */
  lemma {:induction false} NearestByParts(dim: nat, x: seq<Vector>, y: seq<Vector>, z: seq<Vector>)
    requires |x| == |y| == |z| && AllOfDim(x, dim) && AllOfDim(y, dim) && AllOfDim(z, dim)
    requires forall m :: 0 <= m < |x| ==> Vectors.DistanceSquared(x[m], y[m]) <= Vectors.DistanceSquared(x[m], z[m])
    ensures |Concat(x)| == |Concat(y)| == |Concat(z)|
    ensures Vectors.DistanceSquared(Concat(x), Concat(y)) <= Vectors.DistanceSquared(Concat(x), Concat(z))
  {
    if x != [] {
      var n := |x| - 1;
      NearestByParts(dim, x[..n], y[..n], z[..n]);
      DistanceOfConcat(Concat(x[..n]), x[n], Concat(y[..n]), y[n]);
      DistanceOfConcat(Concat(x[..n]), x[n], Concat(z[..n]), z[n]);
    }
  }

  /** The vector decoded from a code, measured against the input. */
  ghost function Distortion(q: Quantizer, parts: seq<Vector>, codes: seq<nat>): real
    requires q.Valid() && q.IsInput(parts) && |codes| == |q.centroids| && CodesFit(codes, q.nbits)
  {
    NearestByParts(q.dsub, parts, q.Chosen(codes), q.Chosen(codes));
    Vectors.DistanceSquared(Concat(parts), Concat(q.Chosen(codes)))
  }

  /** No codes decode to a vector nearer to the input than codes that are nearest part by part. */
  lemma NearestCodesAreBest(q: Quantizer, parts: seq<Vector>, codes: seq<nat>, other: seq<nat>)
    requires q.Valid() && q.IsInput(parts)
    requires |codes| == |other| == |q.centroids| && CodesFit(codes, q.nbits) && CodesFit(other, q.nbits)
    requires q.AllNearest(parts, codes)
    ensures Distortion(q, parts, codes) <= Distortion(q, parts, other)
  {
    var y, z := q.Chosen(codes), q.Chosen(other);
    forall m | 0 <= m < |parts|
      ensures Vectors.DistanceSquared(parts[m], y[m]) <= Vectors.DistanceSquared(parts[m], z[m])
    {
      assert IsNearest(parts[m], q.centroids[m], Pow2(q.nbits), codes[m]);
      assert q.TableOk(m) && other[m] < Pow2(q.nbits);
    }
    NearestByParts(q.dsub, parts, y, z);
  }

  /** Encoding and decoding a vector. Below 32 bits of code the result is a decodable vector nearest to the
      input; from 32 bits on it is the first centroid of every table, whatever the input. */
  method Quantize(q: Quantizer, parts: seq<Vector>) returns (x: Vector, ghost codes: seq<nat>)
    requires q.Valid() && q.IsInput(parts)
    ensures |codes| == |q.centroids| && CodesFit(codes, q.nbits) && x == Concat(q.Chosen(codes))
    ensures q.nbits < 32 ==> q.AllNearest(parts, codes)
    ensures q.nbits < 32 ==> forall other: seq<nat> :: |other| == |codes| && CodesFit(other, q.nbits) ==>
                               Distortion(q, parts, codes) <= Distortion(q, parts, other)
    ensures q.nbits >= 32 ==> forall m :: 0 <= m < |codes| ==> codes[m] == 0
  {
    var bytes;
    bytes, codes := ComputeCode(q, parts);
    var decoded;
    x, decoded := DecodeCode(q, bytes);
    RoundTrip(bytes, codes, q.nbits);
    assert decoded == codes;
    if q.nbits < 32 {
      forall other: seq<nat> | |other| == |codes| && CodesFit(other, q.nbits)
        ensures Distortion(q, parts, codes) <= Distortion(q, parts, other)
      {
        NearestCodesAreBest(q, parts, codes, other);
      }
    }
  }

  /** From 32 bits on a quantizer can miss: one subquantizer whose first centroid is the only wrong one. */
  lemma WideCodesMiss(nbits: nat, q: Quantizer, x: Vector)
    requires 32 <= nbits <= 63 && x == [0.0]
    requires q == Quantizer(nbits, 1, [seq(Pow2(nbits), i => if i == 0 then [1.0] else [0.0])])
    ensures q.Valid() && q.IsInput([x]) && !q.AllNearest([x], [0])
  {
    var table := q.centroids[0];
    assert q.TableOk(0);
    Pow2StrictMono(0, nbits);
    OneCoordinate(x, table[0]);
    OneCoordinate(x, table[1]);
    assert !IsNearest(x, table, Pow2(nbits), 0);
  }

  lemma OneCoordinate(u: Vector, v: Vector)
    requires |u| == |v| == 1
    ensures Vectors.DistanceSquared(u, v) == (u[0] - v[0]) * (u[0] - v[0])
  {
    var w := Vectors.Sub(u, v);
    assert Vectors.DotRange(w, w, 0, 1) == Vectors.DotRange(w, w, 0, 0) + w[0] * w[0];
  }

  /** And such configurations are accepted, up to the widest table of one coordinate that fits. */
  lemma WideCodesAreAccepted(nbits: nat)
    requires 32 <= nbits <= 61
    ensures SetDerivedValues(1, 1, nbits).Accepted?
  {
    assert Pow2(8) == 256;
    Pow2Sum(8, 8, 16);
    Pow2Sum(16, 16, 32);
    Pow2Sum(32, 32, 64);
    Pow2Mono(nbits + 2, 63);
    Pow2StrictMono(63, 64);
  }
}
