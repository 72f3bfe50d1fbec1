/** Bit-packed product-quantization codes (common/quantizer/pq_endecode.h).

    A list of `nbits`-wide codes is one big little-endian number; an encoder writes its bytes one
    code at a time, a decoder reads the codes back. Words are natural numbers; every truncating
    cast and shift of the original is written out.
 */
module PqBitstream {
  import opened Basics
  import opened Bits

  // ----- Little-endian numbers -----

  function LE(s: seq<Byte>): nat {
    if s == [] then 0 else s[0] as nat + 256 * LE(s[1..])
  }

  lemma {:induction false} LEAppend(s: seq<Byte>, b: Byte)
    ensures LE(s + [b]) == LE(s) + b as nat * Pow2(8 * |s|)
    decreases |s|
  {
    if s == [] {
      assert LE([b]) == b as nat;
    } else {
      assert (s + [b])[1..] == s[1..] + [b];
      LEAppend(s[1..], b);
      Pow2Add(8, 8 * (|s| - 1));
      assert Pow2(8) == 256;
      MulAssoc(256, b as nat, Pow2(8 * (|s| - 1)));
      MulAssoc(b as nat, 256, Pow2(8 * (|s| - 1)));
    }
  }

  lemma {:induction false} LEConcat(s: seq<Byte>, t: seq<Byte>)
    ensures LE(s + t) == LE(s) + LE(t) * Pow2(8 * |s|)
    decreases |s|
  {
    if s == [] {
      assert s + t == t;
    } else {
      assert (s + t)[1..] == s[1..] + t;
      LEConcat(s[1..], t);
      Pow2Add(8, 8 * (|s| - 1));
      assert Pow2(8) == 256;
      MulAssoc(256, LE(t), Pow2(8 * (|s| - 1)));
      MulAssoc(LE(t), 256, Pow2(8 * (|s| - 1)));
    }
  }

  lemma {:induction false} LEBound(s: seq<Byte>)
    ensures LE(s) < Pow2(8 * |s|)
  {
    if s != [] {
      LEBound(s[1..]);
      Pow2Add(8, 8 * (|s| - 1));
      assert Pow2(8) == 256;
    }
  }

  /** A byte string of known length is determined by its number. */
  lemma {:induction false} LEDetermines(s: seq<Byte>, t: seq<Byte>)
    requires |s| == |t| && LE(s) == LE(t)
    ensures s == t
  {
    if s != [] {
      assert LE(s) % 256 == s[0] as nat && LE(t) % 256 == t[0] as nat;
      LEDetermines(s[1..], t[1..]);
      assert s == [s[0]] + s[1..] && t == [t[0]] + t[1..];
    }
  }

  /** The number a list of codes stands for. */
  function Stream(codes: seq<nat>, nbits: nat): nat {
    if codes == [] then 0 else
      Stream(codes[..|codes| - 1], nbits) + codes[|codes| - 1] * Pow2(nbits * (|codes| - 1))
  }

  /** The `nbits` bits of a byte string that start at bit `at`. */
  function BitsAt(bytes: seq<Byte>, at: nat, nbits: nat): (c: nat)
    ensures c < Pow2(nbits)
  {
    LE(bytes) / Pow2(at) % Pow2(nbits)
  }

  /** Code `k` of a byte string. */
  function CodeAt(bytes: seq<Byte>, nbits: nat, k: nat): nat {
    BitsAt(bytes, nbits * k, nbits)
  }

  function CodeSize(nbits: nat, m: nat): nat {
    (nbits * m + 7) / 8
  }

  ghost predicate CodesFit(codes: seq<nat>, nbits: nat) {
    forall k :: 0 <= k < |codes| ==> codes[k] < Pow2(nbits)
  }

  lemma Pow2Next(nbits: nat, k: nat)
    ensures Pow2(nbits * (k + 1)) == Pow2(nbits) * Pow2(nbits * k)
  {
    assert nbits * (k + 1) == nbits + nbits * k;
    Pow2Add(nbits, nbits * k);
  }

  lemma AppendBound(low: nat, c: nat, p: nat, m: nat)
    requires low < p && c < m
    ensures low + c * p < m * p
  {
    MulMono(c + 1, m, p);
    Distribute(c, 1, p);
  }

  lemma {:induction false} StreamBound(codes: seq<nat>, nbits: nat)
    requires CodesFit(codes, nbits)
    ensures Stream(codes, nbits) < Pow2(nbits * |codes|)
  {
    if codes != [] {
      var k := |codes| - 1;
      StreamBound(codes[..k], nbits);
      Pow2Next(nbits, k);
      AppendBound(Stream(codes[..k], nbits), codes[k], Pow2(nbits * k), Pow2(nbits));
    }
  }

  /** A later code does not disturb an earlier one. */
  lemma HighCode(low: nat, c: nat, p: nat, m: nat, g: nat, q: nat)
    requires p > 0 && m > 0 && q == p * (m * g)
    ensures (low + c * q) / p % m == low / p % m
  {
    var y := c * g;
    assert c * q == y * m * p by {
      MulAssoc(c, p, m * g);
      MulAssoc(c, m * g, p);
      MulAssoc(c, g, m);
    }
    AddMultiple(low, y * m, p);
    AddMultiple(low / p, y, m);
  }

  lemma TopCode(low: nat, c: nat, p: nat, m: nat)
    requires low < p && c < m
    ensures (low + c * p) / p % m == c
  {
    DivModUnique(low + c * p, p, c, low);
    DivModUnique(c, m, 0, c);
  }

  lemma {:induction false} Pow2Gap(nbits: nat, k: nat, gap: nat)
    ensures Pow2(nbits * (k + 1 + gap)) == Pow2(nbits * k) * (Pow2(nbits) * Pow2(nbits * gap))
  {
    var a, b := nbits * k, nbits * gap;
    MulSplit(nbits, k, gap);
    Pow2Add(a, nbits + b);
    Pow2Add(nbits, b);
  }

  lemma MulSplit(n: nat, k: nat, g: nat)
    ensures n * (k + 1 + g) == n * k + (n + n * g)
  {
  }

  lemma {:induction false} StreamAt(codes: seq<nat>, nbits: nat, k: nat)
    requires CodesFit(codes, nbits) && k < |codes|
    ensures Stream(codes, nbits) / Pow2(nbits * k) % Pow2(nbits) == codes[k]
  {
    var last := |codes| - 1;
    var low := Stream(codes[..last], nbits);
    if k == last {
      StreamBound(codes[..last], nbits);
      TopCode(low, codes[last], Pow2(nbits * k), Pow2(nbits));
    } else {
      var gap := last - k - 1;
      Pow2Gap(nbits, k, gap);
      HighCode(low, codes[last], Pow2(nbits * k), Pow2(nbits), Pow2(nbits * gap), Pow2(nbits * last));
      StreamAt(codes[..last], nbits, k);
    }
  }

  /** The bytes of a stream hold its codes. */
  lemma RoundTrip(bytes: seq<Byte>, codes: seq<nat>, nbits: nat)
    requires CodesFit(codes, nbits) && LE(bytes) == Stream(codes, nbits)
    ensures forall k :: 0 <= k < |codes| ==> CodeAt(bytes, nbits, k) == codes[k]
  {
    forall k | 0 <= k < |codes| ensures CodeAt(bytes, nbits, k) == codes[k] {
      StreamAt(codes, nbits, k);
    }
  }

  // ----- Shifts and casts of the generic encoder -----

  const WORD64: nat := 0x1_0000_0000_0000_0000

  /** Truncating to 64 bits first does not change the low byte. */
  lemma LowByte(z: nat)
    ensures z % WORD64 % 256 == z % 256
  {
  }

  lemma Pow2Byte(offset: nat)
    requires offset <= 8
    ensures Pow2(offset) * Pow2(8 - offset) == 256
  {
    Pow2Add(offset, 8 - offset);
    assert Pow2(8) == 256;
  }

  /** The pending bits with a code placed above them. */
  function Combine(reg: nat, x: nat, offset: nat): nat {
    reg + x * Pow2(offset)
  }

  lemma FirstByteSplit(reg: nat, x: nat, p: nat, q: nat)
    requires p * q == 256 && q > 0 && reg < p
    ensures x * p % 256 == x % q * p
    ensures (reg + x * p) % 256 == reg + x % q * p
    ensures (reg + x * p) / 256 == x / q
  {
    var high, low := x / q, x % q;
    DivMod(x, q);
    Distribute(high * q, low, p);
    MulAssoc(high, q, p);
    assert x * p == high * 256 + low * p;
    AppendBound(reg, low, p, q);
    DivModUnique(x * p, 256, high, low * p);
    DivModUnique(reg + x * p, 256, high, reg + low * p);
  }

  /** The register and the rest of the code once the first byte is filled. */
  lemma FirstByte(reg: nat, x: nat, offset: nat)
    requires offset < 8 && reg < Pow2(offset)
    ensures Or(reg, x * Pow2(offset) % WORD64 % 256) == Combine(reg, x, offset) % 256
    ensures x / Pow2(8 - offset) == Combine(reg, x, offset) / 256
  {
    var p, q := Pow2(offset), Pow2(8 - offset);
    Pow2Byte(offset);
    FirstByteSplit(reg, x, p, q);
    LowByte(x * p);
    OrDisjoint(reg, x % q, offset);
  }

  /** `written` followed by the pending number `rest` of at most `bits` bits stands for `value`. */
  ghost predicate Pending(written: seq<Byte>, rest: nat, bits: nat, value: nat) {
    LE(written) + rest * Pow2(8 * |written|) == value && rest < Pow2(bits)
  }

  lemma SplitByte(rest: nat, p: nat)
    ensures rest % 256 * p + rest / 256 * (256 * p) == rest * p
  {
    DivMod(rest, 256);
    Distribute(rest / 256 * 256, rest % 256, p);
    MulAssoc(rest / 256, 256, p);
  }

  /** Moving the low byte of the pending number to the written bytes keeps the value. */
  lemma EmitByte(written: seq<Byte>, rest: nat, bits: nat, value: nat)
    requires Pending(written, rest, bits, value) && bits >= 8
    ensures Pending(written + [(rest % 256) as Byte], rest / 256, bits - 8, value)
  {
    var p := Pow2(8 * |written|);
    LEAppend(written, (rest % 256) as Byte);
    Pow2Next(8, |written|);
    assert Pow2(8) == 256;
    SplitByte(rest, p);
    Pow2Add(8, bits - 8);
    DivLess(rest, 256, Pow2(bits - 8));
  }

  /** The generic encoder: bytes go to `code`, the unfinished byte waits in `reg`. */
  class PQEncoderGeneric {
    const code: array<Byte>
    const nbits: nat
    var pos: nat
    var offset: nat
    var reg: nat

    constructor (code: array<Byte>, nbits: nat)
      requires 1 <= nbits <= 63
      ensures this.code == code && this.nbits == nbits
      ensures Valid() && Value() == 0 && BitCount() == 0
    {
      this.code, this.nbits, pos, offset, reg := code, nbits, 0, 0, 0;
    }

    ghost predicate Valid()
      reads this
    {
      1 <= nbits <= 63 && pos <= code.Length && offset < 8 && reg < Pow2(offset)
    }

    /** The number written so far, the pending bits included. */
    ghost function Value(): nat
      requires Valid()
      reads this, code
    {
      LE(code[..pos]) + reg * Pow2(8 * pos)
    }

    ghost function BitCount(): nat
      reads this
    {
      8 * pos + offset
    }

    /** Appends one code to the stream, and touches no byte past the last full one. */
    method Encode(code0: nat)
      requires Valid() && code0 < Pow2(nbits) && BitCount() + nbits <= 8 * code.Length
      modifies this, code
      ensures Valid() && BitCount() == old(BitCount()) + nbits
      ensures Value() == old(Value()) + code0 * Pow2(old(BitCount()))
      ensures old(pos) <= pos && forall i :: pos <= i < code.Length ==> code[i] == old(code[i])
    {
      ghost var value := Value() + code0 * Pow2(BitCount());
      ghost var rest := Combine(reg, code0, offset);
      StartPending(code[..pos], pos, reg, code0, offset, nbits, value);
      var x;
      reg, x := FillRegister(reg, code0, offset);
      if offset + nbits >= 8 {
        FlushBytes(x, rest, value);
      } else {
        SmallPending(code[..pos], rest, offset + nbits, value);
        offset := offset + nbits;
      }
    }

    /** The branch of `encode` that completes at least one byte. */
    method FlushBytes(x0: nat, ghost rest: nat, ghost value: nat)
      requires offset < 8 <= offset + nbits && BitCount() + nbits <= 8 * code.Length
      requires Pending(code[..pos], rest, offset + nbits, value) && reg == rest % 256 && x0 == rest / 256
      modifies this, code
      ensures BitCount() == old(BitCount()) + nbits && offset < 8 && old(pos) <= pos <= code.Length
      ensures Pending(code[..pos], reg, offset, value)
      ensures forall i :: pos <= i < code.Length ==> code[i] == old(code[i])
    {
      EmitByte(code[..pos], rest, offset + nbits, value);
      PutByte(reg as Byte);
      var x := EmitBytes(x0, (nbits - (8 - offset)) / 8, value, offset + nbits - 8, (offset + nbits) % 8);
      offset := (offset + nbits) % 8;
      SmallPending(code[..pos], x, offset, value);
      reg := x % 256;
    }

    /** The first two lines of `encode`: the register takes the low bits, the code loses them. */
    static method FillRegister(reg: nat, code: nat, offset: nat) returns (reg': nat, x: nat)
      requires offset < 8 && reg < Pow2(offset)
      ensures reg' == Combine(reg, code, offset) % 256 && x == Combine(reg, code, offset) / 256
    {
      FirstByte(reg, code, offset);
      reg' := Or(reg, code * Pow2(offset) % WORD64 % 256);
      x := code / Pow2(8 - offset);
    }

    /** Writes the unfinished byte, if any: the bytes now stand for the whole stream. */
    method RestoreCode()
      requires Valid() && BitCount() <= 8 * code.Length
      modifies code
      ensures (BitCount() + 7) / 8 <= code.Length
      ensures LE(code[..(BitCount() + 7) / 8]) == old(Value())
      ensures forall i :: (BitCount() + 7) / 8 <= i < code.Length ==> code[i] == old(code[i])
    {
      if offset > 0 {
        Pow2Mono(offset, 8);
        assert Pow2(8) == 256;
        LEAppend(code[..pos], reg as Byte);
        ghost var written := code[..pos];
        code[pos] := reg as Byte;
        assert code[..pos + 1] == written + [reg as Byte];
      }
    }

    /** `*code++ = b`. */
    method PutByte(b: Byte)
      requires pos < code.Length
      modifies `pos, code
      ensures pos == old(pos) + 1 && code[..pos] == old(code[..pos]) + [b]
      ensures forall i :: pos <= i < code.Length ==> code[i] == old(code[i])
    {
      code[pos] := b;
      pos := pos + 1;
    }

    /** The loop of `encode` over the full bytes that follow the first. */
    method EmitBytes(x0: nat, count: nat, ghost value: nat, ghost bits: nat, ghost left: nat) returns (x: nat)
      requires pos + count <= code.Length && bits == 8 * count + left
      requires Pending(code[..pos], x0, bits, value)
      modifies `pos, code
      ensures pos == old(pos) + count && Pending(code[..pos], x, left, value)
      ensures forall i :: pos <= i < code.Length ==> code[i] == old(code[i])
    {
      x := x0;
      for i := 0 to count
        invariant pos == old(pos) + i && pos <= code.Length
        invariant Pending(code[..pos], x, bits - 8 * i, value)
        invariant forall i :: pos <= i < code.Length ==> code[i] == old(code[i])
      {
        EmitByte(code[..pos], x, bits - 8 * i, value);
        PutByte((x % 256) as Byte);
        x := x / 256;
      }
    }
  }

  lemma SmallPending(written: seq<Byte>, rest: nat, bits: nat, value: nat)
    requires Pending(written, rest, bits, value) && bits < 8
    ensures rest % 256 == rest < Pow2(bits)
  {
    Pow2Mono(bits, 8);
    assert Pow2(8) == 256;
  }

  lemma StartPending(written: seq<Byte>, pos: nat, reg: nat, x: nat, offset: nat, nbits: nat, value: nat)
    requires reg < Pow2(offset) && x < Pow2(nbits) && |written| == pos
    requires value == LE(written) + reg * Pow2(8 * pos) + x * Pow2(8 * pos + offset)
    ensures Pending(written, Combine(reg, x, offset), offset + nbits, value)
  {
    PendingValue(LE(written), reg, x, offset, |written|);
    PendingBound(reg, x, offset, nbits);
  }

  /** Adding a code above the pending bits. */
  lemma PendingValue(low: nat, reg: nat, x: nat, offset: nat, pos: nat)
    ensures low + reg * Pow2(8 * pos) + x * Pow2(8 * pos + offset) == low + (reg + x * Pow2(offset)) * Pow2(8 * pos)
  {
    Pow2Add(offset, 8 * pos);
    MulAssoc(x, Pow2(offset), Pow2(8 * pos));
    Distribute(reg, x * Pow2(offset), Pow2(8 * pos));
  }

  lemma PendingBound(reg: nat, x: nat, offset: nat, nbits: nat)
    requires reg < Pow2(offset) && x < Pow2(nbits)
    ensures reg + x * Pow2(offset) < Pow2(offset + nbits)
  {
    AppendBound(reg, x, Pow2(offset), Pow2(nbits));
    Pow2Add(nbits, offset);
  }

  /** `compute_code_generic` with the generic encoder: exactly `CodeSize` bytes are filled and they
      stand for the stream of codes. */
  method EncodeGeneric(code: array<Byte>, nbits: nat, codes: seq<nat>)
    requires 1 <= nbits <= 63 && CodesFit(codes, nbits) && CodeSize(nbits, |codes|) <= code.Length
    modifies code
    ensures LE(code[..CodeSize(nbits, |codes|)]) == Stream(codes, nbits)
    ensures forall i :: CodeSize(nbits, |codes|) <= i < code.Length ==> code[i] == old(code[i])
  {
    var encoder := new PQEncoderGeneric(code, nbits);
    for m := 0 to |codes|
      invariant encoder.Valid() && encoder.code == code && encoder.nbits == nbits && fresh(encoder)
      invariant encoder.BitCount() == nbits * m
      invariant encoder.Value() == Stream(codes[..m], nbits)
      invariant forall i :: CodeSize(nbits, |codes|) <= i < code.Length ==> code[i] == old(code[i])
    {
      CodeRoom(nbits, m, |codes|);
      StreamSnoc(codes, m, nbits);
      encoder.Encode(codes[m]);
    }
    assert codes[..|codes|] == codes;
    encoder.RestoreCode();
  }

  lemma CodeRoom(nbits: nat, m: nat, count: nat)
    requires m < count
    ensures nbits * m + nbits == nbits * (m + 1) <= nbits * count <= 8 * CodeSize(nbits, count)
  {
    MulMono(m + 1, count, nbits);
  }

  lemma StreamSnoc(codes: seq<nat>, m: nat, nbits: nat)
    requires m < |codes|
    ensures Stream(codes[..m + 1], nbits) == Stream(codes[..m], nbits) + codes[m] * Pow2(nbits * m)
  {
    assert codes[..m + 1][..m] == codes[..m];
  }

  // ----- The generic decoder -----

  /** `c` collects the bits of `window` above the first `offset`, `e` of them so far. */
  ghost predicate Gathered(window: seq<Byte>, offset: nat, c: nat, e: nat) {
    e + offset == 8 * |window| && c == Shr(LE(window), offset) && c < Pow2(e)
  }

  lemma GatherFirst(b: Byte, offset: nat)
    requires offset < 8
    ensures Gathered([b], offset, Shr(b as nat, offset), 8 - offset)
  {
    assert LE([b]) == b as nat;
    Pow2Byte(offset);
    DivLess(b as nat, Pow2(offset), Pow2(8 - offset));
  }

  /** One more byte, placed above the bits collected so far. */
  lemma GatherByte(window: seq<Byte>, offset: nat, c: nat, e: nat, b: Byte)
    requires Gathered(window, offset, c, e)
    ensures Gathered(window + [b], offset, c + b as nat * Pow2(e), e + 8)
  {
    LEAppend(window, b);
    PlaceAbove(LE(window), b as nat, offset, e, 8 * |window|);
    AppendBound(c, b as nat, Pow2(e), 256);
    Pow2Add(8, e);
    assert Pow2(8) == 256;
  }

  lemma PlaceAbove(low: nat, b: nat, offset: nat, e: nat, width: nat)
    requires width == e + offset
    ensures Shr(low + b * Pow2(width), offset) == Shr(low, offset) + b * Pow2(e)
  {
    Pow2Sum(e, offset, width);
    DivAbove(low, b, Pow2(offset), Pow2(e), Pow2(width));
  }

  lemma DivAbove(low: nat, b: nat, p: nat, q: nat, w: nat)
    requires p > 0 && w == q * p
    ensures (low + b * w) / p == low / p + b * q
  {
    MulAssoc(b, q, p);
    AddMultiple(low, b * q, p);
  }

  /** Bits beyond a window that already covers a code do not matter to the code. */
  lemma WindowCode(bytes: seq<Byte>, from: nat, to: nat, offset: nat, nbits: nat)
    requires from <= to <= |bytes| && offset + nbits <= 8 * (to - from)
    ensures BitsAt(bytes, 8 * from + offset, nbits) == LE(bytes[from..to]) / Pow2(offset) % Pow2(nbits)
  {
    var window, rest := bytes[from..to], bytes[to..];
    var tail := LE(bytes[from..]);
    assert bytes == bytes[..from] + bytes[from..] && bytes[from..] == window + rest;
    LEConcat(bytes[..from], bytes[from..]);
    LEConcat(window, rest);
    LEBound(bytes[..from]);
    var spare := 8 * (to - from) - offset - nbits;
    SplitWidth(offset, nbits, spare, 8 * |window|);
    HighCode(LE(window), LE(rest), Pow2(offset), Pow2(nbits), Pow2(spare), Pow2(8 * |window|));
    DivModUnique(LE(bytes), Pow2(8 * from), tail, LE(bytes[..from]));
    Pow2Add(8 * from, offset);
    DivDiv(LE(bytes), Pow2(8 * from), Pow2(offset));
  }

  /** The gathered bits are the bits of the stream. */
  lemma GatheredBits(bytes: seq<Byte>, from: nat, to: nat, offset: nat, nbits: nat, c: nat, e: nat)
    requires from <= to <= |bytes| && Gathered(bytes[from..to], offset, c, e) && nbits <= e
    ensures BitsAt(bytes, 8 * from + offset, nbits) == c % Pow2(nbits)
  {
    WindowCode(bytes, from, to, offset, nbits);
  }

  lemma LastByteBits(bytes: seq<Byte>, from: nat, to: nat, offset: nat, nbits: nat, c: nat, e: nat)
    requires from <= to < |bytes| && Gathered(bytes[from..to], offset, c, e) && nbits <= e + 8
    ensures BitsAt(bytes, 8 * from + offset, nbits) == (c + bytes[to] as nat * Pow2(e)) % Pow2(nbits)
  {
    GatherByte(bytes[from..to], offset, c, e, bytes[to]);
    assert bytes[from..to + 1] == bytes[from..to] + [bytes[to]];
    GatheredBits(bytes, from, to + 1, offset, nbits, c + bytes[to] as nat * Pow2(e), e + 8);
  }

  lemma SplitWidth(offset: nat, nbits: nat, spare: nat, width: nat)
    requires width == offset + nbits + spare
    ensures Pow2(width) == Pow2(offset) * (Pow2(nbits) * Pow2(spare))
  {
    var upper := nbits + spare;
    Pow2Sum(offset, upper, width);
    Pow2Sum(nbits, spare, upper);
  }

  lemma Word16IsPow2(w: nat)
    requires w == 16
    ensures Pow2(w) == 0x1_0000
  {
    Pow2Sum(8, 8, w);
    assert Pow2(8) == 256;
  }

  lemma Word64() returns (w: nat)
    ensures w == 64 && Pow2(w) == WORD64
  {
    var quarter: nat, half: nat;
    quarter, half, w :| quarter == 16 && half == 32 && w == 64;
    Word16IsPow2(quarter);
    Pow2Sum(quarter, quarter, half);
    Pow2Sum(half, half, w);
  }

  lemma TruncateShift(b: nat, p: nat, q: nat, w: nat)
    requires p > 0 && q > 0 && w == q * p
    ensures w > 0 && b * p % w == b % q * p
  {
    DivMod(b, q);
    Distribute(b / q * q, b % q, p);
    MulAssoc(b / q, q, p);
    AppendBound(0, b % q, p, q);
    DivModUnique(b * p, w, b / q, b % q * p);
  }

  lemma TruncateMod(c: nat, b: nat, p: nat, q: nat, n: nat, h: nat)
    requires q > 0 && n > 0 && q * p == h * n
    ensures (c + b % q * p) % n == (c + b * p) % n
  {
    DivMod(b, q);
    Distribute(b / q * q, b % q, p);
    MulAssoc(b / q, q, p);
    MulAssoc(b / q, h, n);
    AddMultiple(c + b % q * p, b / q * h, n);
  }

  /** The last, partial byte: truncation to `w` bits drops only bits above the code. */
  lemma GatherLast(c: nat, b: nat, e: nat, nbits: nat, w: nat)
    requires c < Pow2(e) && e <= nbits <= w
    ensures And(Or(c, b * Pow2(e) % Pow2(w)), Pow2(nbits) - 1) == (c + b * Pow2(e)) % Pow2(nbits)
  {
    var spare, over := w - e, w - nbits;
    Pow2Sum(spare, e, w);
    Pow2Sum(over, nbits, w);
    TruncateShift(b, Pow2(e), Pow2(spare), Pow2(w));
    var low := b % Pow2(spare);
    OrDisjoint(c, low, e);
    AndMask(c + low * Pow2(e), nbits);
    TruncateMod(c, b, Pow2(e), Pow2(spare), Pow2(nbits), Pow2(over));
  }

  /** The generic decoder: `reg` holds the byte under the cursor whenever `offset` is inside it. */
  class PQDecoderGeneric {
    const code: seq<Byte>
    const nbits: nat
    var pos: nat
    var offset: nat
    var reg: nat

    constructor (code: seq<Byte>, nbits: nat)
      requires 1 <= nbits <= 63
      ensures this.code == code && this.nbits == nbits && Valid() && BitCount() == 0
    {
      this.code, this.nbits, pos, offset, reg := code, nbits, 0, 0, 0;
    }

    ghost predicate Valid()
      reads this
    {
      1 <= nbits <= 63 && offset < 8 && (offset > 0 ==> pos < |code| && reg == code[pos] as nat)
    }

    ghost function BitCount(): nat
      reads this
    {
      8 * pos + offset
    }

    /** Reads the next code; every byte it looks at lies inside the codes' own bytes. */
    method Decode() returns (c: nat)
      requires Valid() && BitCount() + nbits <= 8 * |code|
      modifies this
      ensures Valid() && BitCount() == old(BitCount()) + nbits
      ensures c == BitsAt(code, old(BitCount()), nbits)
    {
      if offset == 0 {
        reg := code[pos] as nat;
      }
      ghost var start, skip := pos, offset;
      c := Shr(reg, offset);
      assert code[start..start + 1] == [code[start]];
      GatherFirst(code[pos], offset);
      if offset + nbits >= 8 {
        c := DecodeFull(c, start);
      } else {
        WindowCode(code, start, start + 1, skip, nbits);
        AndMask(c, nbits);
        c := And(c, Pow2(nbits) - 1);
        offset := offset + nbits;
      }
    }

    /** The branch of `decode` that runs past the current byte. */
    method DecodeFull(c0: nat, ghost start: nat) returns (c: nat)
      requires 1 <= nbits <= 63 && offset < 8 <= offset + nbits && BitCount() + nbits <= 8 * |code|
      requires pos == start && Gathered(code[start..start + 1], offset, c0, 8 - offset)
      modifies this
      ensures Valid() && BitCount() == old(BitCount()) + nbits
      ensures c == BitsAt(code, old(BitCount()), nbits)
    {
      c := c0;
      ghost var skip := offset;
      var e := 8 - offset;
      pos := pos + 1;
      c, e := GatherBytes(c, e, (nbits - (8 - offset)) / 8, start);
      offset := (offset + nbits) % 8;
      BitsConsumed(start, skip, nbits, pos, offset);
      if offset > 0 {
        reg := code[pos] as nat;
        LastByteBits(code, start, pos, skip, nbits, c, e);
        c := MaskLast(c, reg, e, nbits);
      } else {
        GatheredBits(code, start, pos, skip, nbits, c, e);
        AndMask(c, nbits);
        c := And(c, Pow2(nbits) - 1);
      }
    }

    static lemma BitsConsumed(start: nat, skip: nat, nbits: nat, pos: nat, offset: nat)
      requires skip < 8 <= skip + nbits
      requires pos == start + 1 + (nbits - (8 - skip)) / 8 && offset == (skip + nbits) % 8
      ensures 8 * pos + offset == 8 * start + skip + nbits
    {
    }

    static method MaskLast(c: nat, b: nat, e: nat, nbits: nat) returns (r: nat)
      requires c < Pow2(e) && e <= nbits <= 63
      ensures r == (c + b * Pow2(e)) % Pow2(nbits)
    {
      ghost var w := Word64();
      GatherLast(c, b, e, nbits, w);
      r := And(Or(c, b * Pow2(e) % WORD64), Pow2(nbits) - 1);
    }

    /** The loop of `decode` over the full bytes that follow the first. */
    method GatherBytes(c0: nat, e0: nat, count: nat, ghost start: nat) returns (c: nat, e: nat)
      requires start <= pos && pos + count <= |code| && e0 + 8 * count <= 63 && offset < 8
      requires Gathered(code[start..pos], offset, c0, e0)
      modifies `pos
      ensures pos == old(pos) + count && e == e0 + 8 * count
      ensures Gathered(code[start..pos], offset, c, e)
    {
      c, e := c0, e0;
      for i := 0 to count
        invariant pos == old(pos) + i && e == e0 + 8 * i
        invariant Gathered(code[start..pos], offset, c, e)
      {
        GatherByte(code[start..pos], offset, c, e, code[pos]);
        assert code[start..pos + 1] == code[start..pos] + [code[pos]];
        c := PlaceByte(c, code[pos], e);
        pos := pos + 1;
        e := e + 8;
      }
    }

    /** `c |= (uint64_t)b << e`. */
    static method PlaceByte(c: nat, b: Byte, e: nat) returns (r: nat)
      requires c < Pow2(e) && e + 8 <= 63
      ensures r == c + b as nat * Pow2(e)
    {
      OrDisjoint(c, b as nat, e);
      ShiftFits(b as nat, e);
      r := Or(c, b as nat * Pow2(e) % WORD64);
    }
  }

  lemma ShiftBound(b: nat, e: nat, top: nat)
    requires b < 256 && top == e + 8
    ensures b * Pow2(e) < Pow2(top)
  {
    Pow2Sum(8, e, top);
    assert Pow2(8) == 256;
    AppendBound(0, b, Pow2(e), 256);
  }

  lemma SmallMod(x: nat, m: nat)
    requires x < m
    ensures x % m == x
  {
  }

  lemma ShiftFits(b: nat, e: nat)
    requires b < 256 && e + 8 <= 64
    ensures b * Pow2(e) % WORD64 == b * Pow2(e)
  {
    var w := Word64();
    var top := e + 8;
    Pow2Mono(top, w);
    ShiftBound(b, e, top);
    SmallMod(b * Pow2(e), WORD64);
  }

  /** `decode_code_generic` with the generic decoder. It looks at `CodeSize` bytes at most, and no
      code it returns can be out of the centroid range. */
  method DecodeGeneric(code: seq<Byte>, nbits: nat, count: nat) returns (codes: seq<nat>)
    requires 1 <= nbits <= 63 && |code| == CodeSize(nbits, count)
    ensures |codes| == count && CodesFit(codes, nbits)
    ensures forall k :: 0 <= k < count ==> codes[k] == CodeAt(code, nbits, k)
  {
    var decoder := new PQDecoderGeneric(code, nbits);
    codes := [];
    for m := 0 to count
      invariant decoder.Valid() && decoder.code == code && decoder.nbits == nbits && fresh(decoder)
      invariant decoder.BitCount() == nbits * m
      invariant |codes| == m && forall k :: 0 <= k < m ==> codes[k] == CodeAt(code, nbits, k)
    {
      CodeRoom(nbits, m, count);
      var c := decoder.Decode();
      codes := codes + [c];
    }
  }

  /** Decoding what was encoded gives the codes back, for every width the quantizer admits. */
  method EncodeThenDecode(nbits: nat, codes: seq<nat>) returns (bytes: seq<Byte>, decoded: seq<nat>)
    requires 1 <= nbits <= 63 && CodesFit(codes, nbits)
    ensures |bytes| == CodeSize(nbits, |codes|) && LE(bytes) == Stream(codes, nbits)
    ensures decoded == codes
  {
    var code := new Byte[CodeSize(nbits, |codes|)](_ => 0);
    EncodeGeneric(code, nbits, codes);
    bytes := code[..CodeSize(nbits, |codes|)];
    decoded := DecodeGeneric(bytes, nbits, |codes|);
    RoundTrip(bytes, codes, nbits);
  }

  // ----- The one-byte and two-byte forms -----

  lemma AppendWord(written: seq<Byte>, lo: Byte, hi: Byte, c: nat, p: nat)
    requires c == lo as nat + 256 * hi as nat && p == Pow2(8 * |written|)
    ensures LE(written + [lo, hi]) == LE(written) + c * p
  {
    assert LE([lo, hi]) == c by {
      assert [lo, hi][1..] == [hi];
      assert LE([hi]) == hi as nat;
    }
    LEConcat(written, [lo, hi]);
  }

  /** `*code++ = (uint16_t)x`, low byte first. */
  method PutWord(code: array<Byte>, at: nat, x: nat, ghost p: nat)
    requires at + 2 <= code.Length && x < 0x1_0000 && p == Pow2(8 * at)
    modifies code
    ensures LE(code[..at + 2]) == LE(old(code[..at])) + x * p
    ensures forall i :: at + 2 <= i < code.Length ==> code[i] == old(code[i])
  {
    ghost var written := code[..at];
    var lo, hi := (x % 256) as Byte, (x / 256) as Byte;
    code[at], code[at + 1] := lo, hi;
    assert code[..at + 2] == written + [lo, hi];
    AppendWord(written, lo, hi, x, p);
  }

  method Encode8(code: array<Byte>, codes: seq<nat>)
    requires CodesFit(codes, 8) && |codes| <= code.Length
    modifies code
    ensures LE(code[..|codes|]) == Stream(codes, 8)
    ensures forall i :: |codes| <= i < code.Length ==> code[i] == old(code[i])
  {
    for m := 0 to |codes|
      invariant LE(code[..m]) == Stream(codes[..m], 8)
      invariant forall i :: m <= i < code.Length ==> code[i] == old(code[i])
    {
      ghost var written := code[..m];
      assert Pow2(8) == 256;
      code[m] := (codes[m] % 256) as Byte;
      assert code[..m + 1] == written + [(codes[m] % 256) as Byte];
      LEAppend(written, (codes[m] % 256) as Byte);
      StreamSnoc(codes, m, 8);
    }
    assert codes[..|codes|] == codes;
  }

  /** The two-byte form on a little-endian host. */
  method Encode16(code: array<Byte>, codes: seq<nat>)
    requires CodesFit(codes, 16) && 2 * |codes| <= code.Length
    modifies code
    ensures LE(code[..2 * |codes|]) == Stream(codes, 16)
    ensures forall i :: 2 * |codes| <= i < code.Length ==> code[i] == old(code[i])
  {
    for m := 0 to |codes|
      invariant LE(code[..2 * m]) == Stream(codes[..m], 16)
      invariant forall i :: 2 * m <= i < code.Length ==> code[i] == old(code[i])
    {
      Narrow16(codes[m]);
      PutWord(code, 2 * m, codes[m], Pow2(16 * m));
      StreamSnoc(codes, m, 16);
    }
    assert codes[..|codes|] == codes;
  }

  lemma Narrow16(c: nat)
    requires c < Pow2(16)
    ensures c < 0x1_0000
  {
    var w: nat :| w == 16;
    Word16IsPow2(w);
  }

  /** Any two encoders that fill the same number of bytes with the same stream fill the same bytes:
      the narrow forms agree with the generic one. */
  lemma EncodersAgree(bytes: seq<Byte>, other: seq<Byte>, codes: seq<nat>, nbits: nat)
    requires |bytes| == |other| && LE(bytes) == Stream(codes, nbits) && LE(other) == Stream(codes, nbits)
    ensures bytes == other
  {
    LEDetermines(bytes, other);
  }

  lemma CodeSizeNarrow(count: nat)
    ensures CodeSize(8, count) == count && CodeSize(16, count) == 2 * count
  {
  }

  lemma {:induction false} ByteAt(bytes: seq<Byte>, k: nat)
    requires k < |bytes|
    ensures CodeAt(bytes, 8, k) == bytes[k] as nat
  {
    WindowCode(bytes, k, k + 1, 0, 8);
    assert bytes[k..k + 1] == [bytes[k]];
    assert LE([bytes[k]]) == bytes[k] as nat && Pow2(0) == 1 && Pow2(8) == 256;
  }

  /** Two bytes as a number. */
  lemma TwoBytes(bytes: seq<Byte>, i: nat)
    requires i + 1 < |bytes|
    ensures LE(bytes[i..i + 2]) == bytes[i] as nat + 256 * bytes[i + 1] as nat < 0x1_0000
  {
    var lo, hi := bytes[i], bytes[i + 1];
    assert bytes[i..i + 2] == [lo, hi] == [] + [lo, hi];
    AppendWord([], lo, hi, lo as nat + 256 * hi as nat, 1);
  }

  lemma WordAt(bytes: seq<Byte>, k: nat)
    requires 2 * k + 1 < |bytes|
    ensures CodeAt(bytes, 16, k) == bytes[2 * k] as nat + 256 * bytes[2 * k + 1] as nat
  {
    TwoBytes(bytes, 2 * k);
    var w: nat :| w == 16;
    WindowCode(bytes, 2 * k, 2 * k + 2, 0, w);
    Word16IsPow2(w);
    assert Pow2(0) == 1;
  }

  method Decode8(code: seq<Byte>, count: nat) returns (codes: seq<nat>)
    requires |code| == CodeSize(8, count)
    ensures |codes| == count && forall k :: 0 <= k < count ==> codes[k] == CodeAt(code, 8, k)
  {
    codes := [];
    for m := 0 to count
      invariant |codes| == m && forall k :: 0 <= k < m ==> codes[k] == CodeAt(code, 8, k)
    {
      ByteAt(code, m);
      codes := codes + [code[m] as nat];
    }
  }

  method Decode16(code: seq<Byte>, count: nat) returns (codes: seq<nat>)
    requires |code| == CodeSize(16, count)
    ensures |codes| == count && forall k :: 0 <= k < count ==> codes[k] == CodeAt(code, 16, k)
  {
    codes := [];
    for m := 0 to count
      invariant |codes| == m && forall k :: 0 <= k < m ==> codes[k] == CodeAt(code, 16, k)
    {
      WordAt(code, m);
      codes := codes + [code[2 * m] as nat + 256 * code[2 * m + 1] as nat];
    }
  }
}
