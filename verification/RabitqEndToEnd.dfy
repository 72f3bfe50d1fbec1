/** Rotation, codes and estimate together (common/rabitq/rabitq.cpp, common/rabitq/estimator.cpp):
    statements about the vectors before rotation. */
module RabitqEndToEnd {
  import opened Bits
  import opened Vectors
  import opened Rotator
  import opened RabitqCodes

  /** The query's part is the same before and after rotation. */
  lemma QueryPartRotates(p: Params, metric: Metric, q: Vector, c: Vector)
    requires Valid(p) && |q| == |c| == p.dim
    ensures QueryPart(metric, Rotated(p, q), Rotated(p, c)) == QueryPart(metric, q, c)
  {
    RotationKeepsDistance(p, q, c);
    RotationKeepsDot(p, q, c);
  }

  /** A stored raw vector is at its true distance from itself if and only if its rotated coordinates, where the
      rotated residual is zero, add up to zero; without zero residual coordinates it always is. */
  lemma RawSelfDistance(p: Params, metric: Metric, x: Vector, c: Vector, codes: seq<nat>, k: real, code: Code)
    requires Valid(p) && |x| == |c| == p.dim && x != c
    requires Encodes(metric, Rotated(p, x), Rotated(p, c), codes, k, code)
    ensures FullDistance(metric, code, Rotated(p, x), Rotated(p, c)) == TrueSelfDistance(metric, x)
       <==> Dot(Rotated(p, x), ZeroMask(Sub(Rotated(p, x), Rotated(p, c)))) == 0.0
    ensures NoZero(Sub(Rotated(p, x), Rotated(p, c))) ==>
            FullDistance(metric, code, Rotated(p, x), Rotated(p, c)) == TrueSelfDistance(metric, x)
  {
    RotationIsInjective(p, x, c);
    SelfDistanceIff(metric, Rotated(p, x), Rotated(p, c), codes, k, code);
    RotationKeepsDot(p, x, x);
  }

  lemma RotationIsInjective(p: Params, x: Vector, c: Vector)
    requires Valid(p) && |x| == |c| == p.dim && x != c
    ensures Sub(Rotated(p, x), Rotated(p, c)) != Zero(p.padded)
  {
    InverseUndoesRotation(p, x);
    InverseUndoesRotation(p, c);
    var u, v := Rotated(p, x), Rotated(p, c);
    assert u != v;
    var i: nat :| i < p.padded && u[i] != v[i];
    assert Sub(u, v)[i] != 0.0 && Zero(p.padded)[i] == 0.0;
  }

  /** For every unpadded rotation there are a raw vector and a raw centroid such that no code puts the vector
      at its true distance from itself. */
  lemma RawSelfDistanceFails(p: Params, metric: Metric, codes: seq<nat>, k: real, code: Code)
    requires Valid(p) && p.dim == p.padded
    requires var x, c := Unrotated(p, Ones(p.padded)), Unrotated(p, Unit(p.padded, 0));
             Encodes(metric, Rotated(p, x), Rotated(p, c), codes, k, code)
    ensures var x, c := Unrotated(p, Ones(p.padded)), Unrotated(p, Unit(p.padded, 0));
            FullDistance(metric, code, Rotated(p, x), Rotated(p, c)) ==
            TrueSelfDistance(metric, x) + (if metric == L2 then 512.0 else 256.0) * k
    ensures k > 0.0
  {
    var n := p.padded;
    RotationUndoesInverse(p, Ones(n));
    RotationUndoesInverse(p, Unit(n, 0));
    ZeroCoordinateBreaksSelfDistance(metric, n, codes, k, code);
    RotationKeepsDot(p, Unrotated(p, Ones(n)), Unrotated(p, Ones(n)));
  }

  /** Such a code exists, and it puts the raw vector 1024/511 away from itself. */
  lemma RawVectorAwayFromItself(p: Params, n: nat)
    requires Valid(p) && p.dim == p.padded == n
    ensures var x, c := Unrotated(p, Ones(n)), Unrotated(p, Unit(n, 0));
            Encodes(L2, Rotated(p, x), Rotated(p, c), LargestCodes(n), 2.0 / 511.0, OnesCode(n)) &&
            FullDistance(L2, OnesCode(n), Rotated(p, x), Rotated(p, c)) == 1024.0 / 511.0
  {
    RotationUndoesInverse(p, Ones(n));
    RotationUndoesInverse(p, Unit(n, 0));
    OnesAwayFromThemselves(n);
  }

  /** A rotation of 64 coordinates without flips is one of these. */
  lemma PlainRotationIsValid(p: Params)
    requires p == Params(64, 64, 6, 0.125, seq(32, _ => 0))
    ensures Valid(p) && p.dim == p.padded
  {
    assert Pow2(6) == 64 by {
      assert Pow2(3) == 8;
      assert Pow2(4) == 16;
      assert Pow2(5) == 32;
    }
  }

  /** A raw vector that is its centroid is at its true distance from every query. */
  lemma RawCentroidDistance(p: Params, metric: Metric, c: Vector, codes: seq<nat>, k: real, code: Code, q: Vector)
    requires Valid(p) && |c| == |q| == p.dim && Encodes(metric, Rotated(p, c), Rotated(p, c), codes, k, code)
    ensures FullDistance(metric, code, Rotated(p, q), Rotated(p, c))
         == if metric == L2 then DistanceSquared(q, c) else 1.0 - Dot(q, c)
  {
    assert Sub(Rotated(p, c), Rotated(p, c)) == Zero(p.padded);
    ZeroResidualIsExact(metric, Rotated(p, c), Rotated(p, c), codes, k, code, Rotated(p, q));
    RotationKeepsDistance(p, q, c);
    RotationKeepsDot(p, q, c);
  }
}
