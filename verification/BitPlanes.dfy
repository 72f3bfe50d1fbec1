/** Sign words and query bit planes (common/rabitq/rabitq.cpp, common/rabitq/query.h) and the kernel that
    combines them (common/distance/src/rabitq_template.cpp).

    Both sides put coordinate `k` of a block of 64 at bit `63 - k`. Proved: AND and popcount over the
    four planes add up the 4-bit query values where the sign bit is one.
 */
module BitPlanes {
  import opened Bits


  // ----- Words -----

  /** Bit `i` of a word that holds the first `n` lanes of a block, the first lane on top. */
  function LaneBit(lanes: seq<nat>, lo: nat, n: nat, i: nat): nat
    requires n <= 64 && lo + n <= |lanes|
  {
    if 64 - n <= i < 64 then lanes[lo + (63 - i)] else 0
  }

  ghost predicate HoldsLanes(word: nat, lanes: seq<nat>, lo: nat, n: nat) {
    n <= 64 && lo + n <= |lanes| && forall i: nat :: Bit(word, i) == LaneBit(lanes, lo, n, i)
  }

  ghost predicate AreBits(s: seq<nat>) {
    forall i :: 0 <= i < |s| ==> s[i] <= 1
  }

  /** `word | bit << shift` sets one bit. */
  lemma SetBit(word: nat, bit: nat, shift: nat, i: nat)
    requires bit <= 1
    ensures Bit(Or(word, bit * Pow2(shift)), i) == if i == shift && bit == 1 then 1 else Bit(word, i)
  {
    BitOr(word, bit * Pow2(shift), i);
    if bit == 0 {
      BitZero(i);
    } else {
      BitPow2(shift, i);
    }
  }

  lemma LaneAdded(word: nat, lanes: seq<nat>, lo: nat, n: nat)
    requires HoldsLanes(word, lanes, lo, n) && n < 64 && lo + n < |lanes| && lanes[lo + n] <= 1
    ensures HoldsLanes(Or(word, lanes[lo + n] * Pow2(63 - n)), lanes, lo, n + 1)
  {
    var next := Or(word, lanes[lo + n] * Pow2(63 - n));
    forall i: nat ensures Bit(next, i) == LaneBit(lanes, lo, n + 1, i) {
      SetBit(word, lanes[lo + n], 63 - n, i);
    }
  }

  /** The inner loop of both packers. */
  method PackWord(lanes: seq<nat>, lo: nat) returns (word: nat)
    requires lo + 64 <= |lanes| && AreBits(lanes)
    ensures HoldsLanes(word, lanes, lo, 64)
  {
    word := 0;
    forall i: nat ensures Bit(word, i) == LaneBit(lanes, lo, 0, i) {
      BitZero(i);
    }
    for k := 0 to 64
      invariant HoldsLanes(word, lanes, lo, k)
    {
      LaneAdded(word, lanes, lo, k);
      word := Or(word, lanes[lo + k] * Pow2(63 - k));
    }
  }

  /** `pack_bin_code`. */
  method PackBinCode(bits: seq<nat>) returns (words: seq<nat>)
    requires |bits| % 64 == 0 && AreBits(bits)
    ensures |words| == |bits| / 64 && SignWords(words, bits)
  {
    words := [];
    for b := 0 to |bits| / 64
      invariant |words| == b && SignWords(words, bits)
    {
      var word := PackWord(bits, 64 * b);
      words := words + [word];
    }
  }

  ghost predicate SignWords(words: seq<nat>, bits: seq<nat>) {
    forall b :: 0 <= b < |words| ==> HoldsLanes(words[b], bits, 64 * b, 64)
  }

  // ----- Planes -----

  /** Bit `p` of every value. */
  function Plane(q: seq<nat>, p: nat): (s: seq<nat>)
    ensures |s| == |q| && forall i :: 0 <= i < |s| ==> s[i] <= 1
  {
    seq(|q|, i requires 0 <= i < |q| => Bit(q[i], p))
  }

  ghost predicate PlanesOf(tq: seq<nat>, q: seq<nat>, blocks: nat) {
    && 4 * blocks <= |tq| && 64 * blocks <= |q|
    && forall b, p :: 0 <= b < blocks && 0 <= p < 4 ==> PlaneWord(tq, q, b, p)
  }

  ghost predicate PlaneWord(tq: seq<nat>, q: seq<nat>, b: nat, p: nat) {
    4 * b + p < |tq| && HoldsLanes(tq[4 * b + p], Plane(q, p), 64 * b, 64)
  }

  /** One block of `new_transpose_bin`: planes are written from the highest down. */
  method TransposeBlock(q: seq<nat>, tq: array<nat>, b: nat)
    requires 64 * b + 64 <= |q| && 4 * b + 4 <= tq.Length
    modifies tq
    ensures forall p :: 0 <= p < 4 ==> PlaneWord(tq[..], q, b, p)
    ensures forall i :: 0 <= i < 4 * b ==> tq[i] == old(tq[i])
  {
    for j := 0 to 4
      invariant forall i :: 0 <= i < 4 * b ==> tq[i] == old(tq[i])
      invariant forall p :: 4 - j <= p < 4 ==> HoldsLanes(tq[4 * b + p], Plane(q, p), 64 * b, 64)
    {
      var p := 3 - j;
      var word := PackWord(Plane(q, p), 64 * b);
      tq[4 * b + p] := word;
    }
  }

  method NewTransposeBin(q: seq<nat>, tq: array<nat>)
    requires |q| % 64 == 0 && tq.Length == |q| * 4 / 64
    modifies tq
    ensures PlanesOf(tq[..], q, |q| / 64)
  {
    for b := 0 to |q| / 64
      invariant PlanesOf(tq[..], q, b)
    {
      ghost var before := tq[..];
      TransposeBlock(q, tq, b);
      PlanesKept(before, tq[..], q, b);
    }
  }

  lemma PlanesKept(before: seq<nat>, after: seq<nat>, q: seq<nat>, b: nat)
    requires |before| == |after| && PlanesOf(before, q, b) && 4 * b + 4 <= |after| && 64 * b + 64 <= |q|
    requires forall i :: 0 <= i < 4 * b ==> after[i] == before[i]
    requires forall p :: 0 <= p < 4 ==> PlaneWord(after, q, b, p)
    ensures PlanesOf(after, q, b + 1)
  {
    forall b', p | 0 <= b' < b + 1 && 0 <= p < 4 ensures PlaneWord(after, q, b', p) {
      if b' < b {
        assert PlaneWord(before, q, b', p);
        assert after[4 * b' + p] == before[4 * b' + p];
      }
    }
  }

  /** A 4-bit value is the sum of its bits. */
  lemma Nibble(v: nat)
    requires v < 16
    ensures v == Bit(v, 0) + 2 * Bit(v, 1) + 4 * Bit(v, 2) + 8 * Bit(v, 3)
  {
    var a, b, c := v / 2, v / 2 / 2, v / 2 / 2 / 2;
    assert Bit(v, 1) == Bit(a, 0) && Bit(v, 2) == Bit(a, 1) == Bit(b, 0);
    assert Bit(v, 3) == Bit(a, 2) == Bit(b, 1) == Bit(c, 0);
  }

  /** Every value can be read back from the planes. */
  lemma PlanesRecoverValues(tq: seq<nat>, q: seq<nat>, b: nat, k: nat)
    requires PlanesOf(tq, q, |q| / 64) && b < |q| / 64 && k < 64 && q[64 * b + k] < 16
    ensures q[64 * b + k] == Bit(tq[4 * b], 63 - k) + 2 * Bit(tq[4 * b + 1], 63 - k)
                             + 4 * Bit(tq[4 * b + 2], 63 - k) + 8 * Bit(tq[4 * b + 3], 63 - k)
  {
    Nibble(q[64 * b + k]);
    PlaneBit(tq, q, b, k, 0);
    PlaneBit(tq, q, b, k, 1);
    PlaneBit(tq, q, b, k, 2);
    PlaneBit(tq, q, b, k, 3);
  }

  lemma PlaneBit(tq: seq<nat>, q: seq<nat>, b: nat, k: nat, p: nat)
    requires PlanesOf(tq, q, |q| / 64) && b < |q| / 64 && k < 64 && p < 4
    ensures Bit(tq[4 * b + p], 63 - k) == Bit(q[64 * b + k], p)
  {
    assert PlaneWord(tq, q, b, p);
    assert Bit(tq[4 * b + p], 63 - k) == LaneBit(Plane(q, p), 64 * b, 64, 63 - k);
  }

  // ----- Sums -----

  /** The values from `lo` to `hi` where the sign bit is one. */
  function MaskedSum(bits: seq<nat>, values: seq<nat>, lo: nat, hi: nat): nat
    requires lo <= hi <= |bits| && hi <= |values|
    decreases hi - lo
  {
    if lo == hi then 0 else (if bits[lo] == 1 then values[lo] else 0) + MaskedSum(bits, values, lo + 1, hi)
  }

  lemma {:induction false} MaskedSplit(bits: seq<nat>, values: seq<nat>, lo: nat, mid: nat, hi: nat)
    requires lo <= mid <= hi <= |bits| && hi <= |values|
    ensures MaskedSum(bits, values, lo, hi) == MaskedSum(bits, values, lo, mid) + MaskedSum(bits, values, mid, hi)
    decreases mid - lo
  {
    if lo < mid {
      MaskedSplit(bits, values, lo + 1, mid, hi);
    }
  }

  /** The planes weighted by powers of two add up to the values. */
  lemma {:induction false} PlanesAddUp(bits: seq<nat>, q: seq<nat>, lo: nat, hi: nat)
    requires lo <= hi <= |bits| && hi <= |q| && forall i :: 0 <= i < |q| ==> q[i] < 16
    ensures MaskedSum(bits, Plane(q, 0), lo, hi) + 2 * MaskedSum(bits, Plane(q, 1), lo, hi)
            + 4 * MaskedSum(bits, Plane(q, 2), lo, hi) + 8 * MaskedSum(bits, Plane(q, 3), lo, hi)
         == MaskedSum(bits, q, lo, hi)
    decreases hi - lo
  {
    if lo < hi {
      PlanesAddUp(bits, q, lo + 1, hi);
      Nibble(q[lo]);
    }
  }

  /** Popcount adds up the bits. */
  function BitSum(x: nat, n: nat): nat {
    if n == 0 then 0 else BitSum(x, n - 1) + Bit(x, n - 1)
  }

  lemma {:induction false} BitSumShift(x: nat, n: nat)
    ensures BitSum(x, n + 1) == x % 2 + BitSum(x / 2, n)
  {
    if n > 0 {
      BitSumShift(x, n - 1);
    }
  }

  lemma {:induction false} PopcountIsBitSum(x: nat, n: nat)
    requires forall i: nat :: i >= n ==> Bit(x, i) == 0
    ensures Popcount(x) == BitSum(x, n)
    decreases n, x
  {
    if n == 0 {
      AllZero(x);
    } else {
      forall i: nat | i >= n - 1 ensures Bit(x / 2, i) == 0 {
        assert Bit(x, i + 1) == 0;
      }
      PopcountIsBitSum(x / 2, n - 1);
      BitSumShift(x, n - 1);
    }
  }

  lemma {:induction false} AllZero(x: nat)
    requires forall i: nat :: Bit(x, i) == 0
    ensures x == 0
  {
    if x > 0 {
      assert Bit(x, 0) == 0;
      forall i: nat ensures Bit(x / 2, i) == 0 {
        assert Bit(x, i + 1) == 0;
      }
      AllZero(x / 2);
    }
  }

  lemma {:induction false} AndSum(a: nat, b: nat, bits: seq<nat>, values: seq<nat>, lo: nat, n: nat)
    requires HoldsLanes(a, bits, lo, 64) && HoldsLanes(b, values, lo, 64) && n <= 64 && AreBits(values)
    ensures BitSum(And(a, b), n) == MaskedSum(bits, values, lo + 64 - n, lo + 64)
  {
    if n > 0 {
      AndSum(a, b, bits, values, lo, n - 1);
      BitAnd(a, b, n - 1);
      assert Bit(a, n - 1) == LaneBit(bits, lo, 64, n - 1) && Bit(b, n - 1) == LaneBit(values, lo, 64, n - 1);
    }
  }

  /** Popcount of sign word AND plane counts the one bits of the plane under the signs. */
  lemma PopcountAnd(a: nat, b: nat, bits: seq<nat>, values: seq<nat>, lo: nat)
    requires HoldsLanes(a, bits, lo, 64) && HoldsLanes(b, values, lo, 64) && AreBits(values)
    ensures Popcount(And(a, b)) == MaskedSum(bits, values, lo, lo + 64)
  {
    forall i: nat | i >= 64 ensures Bit(And(a, b), i) == 0 {
      BitAnd(a, b, i);
      assert Bit(a, i) == LaneBit(bits, lo, 64, i);
    }
    PopcountIsBitSum(And(a, b), 64);
    AndSum(a, b, bits, values, lo, 64);
  }

  lemma {:induction false} LaneSum(a: nat, bits: seq<nat>, lo: nat, n: nat)
    requires HoldsLanes(a, bits, lo, 64) && n <= 64 && AreBits(bits)
    ensures BitSum(a, n) == MaskedSum(bits, bits, lo + 64 - n, lo + 64)
  {
    if n > 0 {
      LaneSum(a, bits, lo, n - 1);
      assert Bit(a, n - 1) == LaneBit(bits, lo, 64, n - 1);
    }
  }

  lemma PopcountSigns(a: nat, bits: seq<nat>, lo: nat)
    requires HoldsLanes(a, bits, lo, 64) && AreBits(bits)
    ensures Popcount(a) == MaskedSum(bits, bits, lo, lo + 64)
  {
    forall i: nat | i >= 64 ensures Bit(a, i) == 0 {
      assert Bit(a, i) == LaneBit(bits, lo, 64, i);
    }
    PopcountIsBitSum(a, 64);
    LaneSum(a, bits, lo, 64);
  }

  // ----- The kernel -----

  lemma BlockSum(words: seq<nat>, tq: seq<nat>, bits: seq<nat>, q: seq<nat>, b: nat, p: nat)
    requires SignWords(words, bits) && b < |words| && PlanesOf(tq, q, |words|) && p < 4
    ensures Popcount(And(words[b], tq[4 * b + p])) == MaskedSum(bits, Plane(q, p), 64 * b, 64 * b + 64)
  {
    assert PlaneWord(tq, q, b, p);
    PopcountAnd(words[b], tq[4 * b + p], bits, Plane(q, p), 64 * b);
  }

  /** One block of the kernel. */
  method BlockIp(words: seq<nat>, tq: seq<nat>, b: nat, ghost bits: seq<nat>, ghost q: seq<nat>)
    returns (ip: nat, ppc: nat)
    requires SignWords(words, bits) && b < |words| && PlanesOf(tq, q, |words|)
    requires AreBits(bits) && 64 * |words| <= |bits|
    requires forall i :: 0 <= i < |q| ==> q[i] < 16
    ensures ip == MaskedSum(bits, q, 64 * b, 64 * b + 64) && ppc == MaskedSum(bits, bits, 64 * b, 64 * b + 64)
  {
    var x := words[b];
    ppc := Popcount(x);
    ip := Popcount(And(x, tq[4 * b])) + Popcount(And(x, tq[4 * b + 1])) * 2
          + Popcount(And(x, tq[4 * b + 2])) * 4 + Popcount(And(x, tq[4 * b + 3])) * 8;
    PopcountSigns(x, bits, 64 * b);
    BlockSum(words, tq, bits, q, b, 0);
    BlockSum(words, tq, bits, q, b, 1);
    BlockSum(words, tq, bits, q, b, 2);
    BlockSum(words, tq, bits, q, b, 3);
    PlanesAddUp(bits, q, 64 * b, 64 * b + 64);
  }

  /** `warmup_ip_x0_q`: the blocks are added up and scaled once. */
  method WarmupIp(words: seq<nat>, tq: seq<nat>, delta: real, vl: real, ghost bits: seq<nat>, ghost q: seq<nat>)
    returns (result: real)
    requires |bits| == |q| == 64 * |words| && SignWords(words, bits) && PlanesOf(tq, q, |words|) && AreBits(bits)
    requires forall i :: 0 <= i < |q| ==> q[i] < 16
    ensures result == DequantisedSum(bits, q, delta, vl, |q|)
  {
    var ip, ppc := 0, 0;
    for b := 0 to |words|
      invariant ip == MaskedSum(bits, q, 0, 64 * b) && ppc == MaskedSum(bits, bits, 0, 64 * b)
    {
      var blockIp, blockPpc := BlockIp(words, tq, b, bits, q);
      MaskedSplit(bits, q, 0, 64 * b, 64 * b + 64);
      MaskedSplit(bits, bits, 0, 64 * b, 64 * b + 64);
      ip, ppc := ip + blockIp, ppc + blockPpc;
    }
    result := delta * ip as real + vl * ppc as real;
    SumDequantises(bits, q, delta, vl, |q|, ip, ppc, result);
  }

  /** The reference: every query value dequantised, added up where the sign bit is one. */
  function DequantisedSum(bits: seq<nat>, q: seq<nat>, delta: real, vl: real, hi: nat): real
    requires hi <= |bits| == |q|
  {
    if hi == 0 then 0.0
    else
      DequantisedSum(bits, q, delta, vl, hi - 1) +
      (if bits[hi - 1] == 1 then delta * q[hi - 1] as real + vl else 0.0)
  }

  lemma {:induction false} SumDequantises(bits: seq<nat>, q: seq<nat>, delta: real, vl: real, hi: nat, ip: nat,
                                          ppc: nat, sum: real)
    requires hi <= |bits| == |q| && AreBits(bits)
    requires ip == MaskedSum(bits, q, 0, hi) && ppc == MaskedSum(bits, bits, 0, hi)
    requires sum == delta * ip as real + vl * ppc as real
    ensures DequantisedSum(bits, q, delta, vl, hi) == sum
  {
    if hi > 0 {
      MaskedSplit(bits, q, 0, hi - 1, hi);
      MaskedSplit(bits, bits, 0, hi - 1, hi);
      var ip', ppc' := MaskedSum(bits, q, 0, hi - 1), MaskedSum(bits, bits, 0, hi - 1);
      var sum' := delta * ip' as real + vl * ppc' as real;
      SumDequantises(bits, q, delta, vl, hi - 1, ip', ppc', sum');
      if bits[hi - 1] == 1 {
        AddOne(delta, vl, ip', q[hi - 1], ppc', ip, ppc, sum', sum);
      }
    }
  }

  lemma AddOne(delta: real, vl: real, ip': nat, v: nat, ppc': nat, ip: nat, ppc: nat, sum': real, sum: real)
    requires ip == ip' + v && ppc == ppc' + 1
    requires sum' == delta * ip' as real + vl * ppc' as real && sum == delta * ip as real + vl * ppc as real
    ensures sum == sum' + (delta * v as real + vl)
  {
    assert ip as real == ip' as real + v as real && ppc as real == ppc' as real + 1.0;
    Spread(delta, ip' as real, v as real, ip as real);
    Spread(vl, ppc' as real, 1.0, ppc as real);
  }

  lemma Spread(x: real, a: real, b: real, c: real)
    requires c == a + b
    ensures x * c == x * a + x * b
  {
  }
}
