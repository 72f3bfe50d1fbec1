/** The reader/writer spin lock (common/vtl/bitlock.hpp) as an interleaving of atomic steps.

    Writer bits are packed sixteen to a word, reader counters are one byte each. An agent is one
    lock session; a thread holding several locks is several agents. Every load, fetch_or, fetch_and,
    fetch_add and fetch_sub of the original is one step, and a run is any schedule of such steps.
 */
module BitLock {
  import opened Bits

  const WORD_SIZE: nat := 16

  // Word indices are kept in a uint16.
  function WordOf(idx: nat): nat {
    idx / WORD_SIZE % 0x1_0000
  }

  function BitOf(idx: nat): (b: nat)
    ensures b < WORD_SIZE
  {
    idx % WORD_SIZE
  }

  /** Where an agent stands in rlock, wlock, runlock or wunlock. */
  datatype Pc =
    | Idle
    | AwaitWriter(idx: nat)   // rlock: _wlock.wait
    | Announce(idx: nat)      // rlock: fetch_add
    | Recheck(idx: nat)       // rlock: _wlock.locked
    | Withdraw(idx: nat)      // rlock: fetch_sub, then try again
    | Reading(idx: nat)       // holds the read lock; next is runlock's fetch_sub
    | TakeBit(idx: nat)       // wlock: fetch_or
    | Drain(idx: nat)         // wlock: wait for the reader counter
    | Writing(idx: nat)       // holds the write lock; next is wunlock's fetch_and

  datatype Action = StartRead(idx: nat) | StartWrite(idx: nat) | Go

  datatype State = State(words: seq<nat>, readers: seq<nat>, pc: map<nat, Pc>)

  // ----- Atomic word operations -----

  function Mask(idx: nat): nat {
    Pow2(BitOf(idx))
  }

  predicate Locked(words: seq<nat>, idx: nat)
    requires WordOf(idx) < |words|
  {
    And(words[WordOf(idx)], Mask(idx)) != 0
  }

  function FetchOr(words: seq<nat>, idx: nat): (words': seq<nat>)
    requires WordOf(idx) < |words|
    ensures |words'| == |words|
  {
    words[WordOf(idx) := Or(words[WordOf(idx)], Mask(idx))]
  }

  function FetchAnd(words: seq<nat>, idx: nat): (words': seq<nat>)
    requires WordOf(idx) < |words|
    ensures |words'| == |words|
  {
    MaskFits(idx);
    words[WordOf(idx) := And(words[WordOf(idx)], Not(WORD_SIZE, Mask(idx)))]
  }

  lemma MaskFits(idx: nat)
    ensures Mask(idx) < Pow2(WORD_SIZE)
  {
    Pow2StrictMono(BitOf(idx), WORD_SIZE);
  }

  ghost predicate WordsFit(words: seq<nat>) {
    forall w :: 0 <= w < |words| ==> words[w] < Pow2(WORD_SIZE)
  }

  lemma LockedIsBit(words: seq<nat>, idx: nat)
    requires WordOf(idx) < |words|
    ensures Locked(words, idx) <==> Bit(words[WordOf(idx)], BitOf(idx)) == 1
  {
    AndPow2(words[WordOf(idx)], BitOf(idx));
  }

  lemma {:induction false} AndPow2(x: nat, b: nat)
    ensures And(x, Pow2(b)) != 0 <==> Bit(x, b) == 1
    decreases b
  {
    AndStep(x, Pow2(b));
    if b > 0 {
      AndPow2(x / 2, b - 1);
      assert Pow2(b) / 2 == Pow2(b - 1);
    } else {
      AndZero(x / 2);
    }
  }

  /** fetch_or sets one bit and no other. */
  lemma FetchOrBits(words: seq<nat>, idx: nat, w: nat, b: nat)
    requires WordOf(idx) < |words| && w < |words|
    ensures Bit(FetchOr(words, idx)[w], b) ==
            if w == WordOf(idx) && b == BitOf(idx) then 1 else Bit(words[w], b)
  {
    BitOr(words[w], Mask(idx), b);
    BitPow2(BitOf(idx), b);
  }

  /** fetch_and clears one bit and no other. */
  lemma FetchAndBits(words: seq<nat>, idx: nat, w: nat, b: nat)
    requires WordOf(idx) < |words| && w < |words| && b < WORD_SIZE
    ensures Bit(FetchAnd(words, idx)[w], b) ==
            if w == WordOf(idx) && b == BitOf(idx) then 0 else Bit(words[w], b)
  {
    MaskFits(idx);
    BitAnd(words[w], Not(WORD_SIZE, Mask(idx)), b);
    BitNot(WORD_SIZE, Mask(idx), b);
    BitPow2(BitOf(idx), b);
  }

  lemma WordsStayFit(words: seq<nat>, idx: nat)
    requires WordOf(idx) < |words| && WordsFit(words)
    ensures WordsFit(FetchOr(words, idx)) && WordsFit(FetchAnd(words, idx))
  {
    MaskFits(idx);
    OrBound(words[WordOf(idx)], Mask(idx), WORD_SIZE);
    AndBound(words[WordOf(idx)], Not(WORD_SIZE, Mask(idx)));
  }

  /** Distinct indices use distinct bits as long as the uint16 word index does not wrap, and only then. */
  lemma SlotsDistinct(size: nat)
    ensures (forall i, j :: 0 <= i < size && 0 <= j < size && WordOf(i) == WordOf(j) && BitOf(i) == BitOf(j) ==> i == j)
            <==> size <= 0x10_0000
  {
    if size > 0x10_0000 {
      assert WordOf(0) == WordOf(0x10_0000) && BitOf(0) == BitOf(0x10_0000);
    }
  }

  // ----- Steps -----

  /** As many words as `size` bits need. */
  function Words(size: nat): (n: nat)
    ensures WORD_SIZE * (n - 1) < size <= WORD_SIZE * n
  {
    (size + WORD_SIZE - 1) / WORD_SIZE
  }

  ghost predicate Shaped(s: State) {
    && |s.words| == Words(|s.readers|) && WordsFit(s.words)
    && (forall a :: a in s.pc && s.pc[a] != Idle ==> s.pc[a].idx < |s.readers|)
  }

  lemma WordInRange(size: nat, idx: nat)
    requires idx < size
    ensures WordOf(idx) < Words(size)
  {
  }

  function Increment(readers: seq<nat>, idx: nat): seq<nat>
    requires idx < |readers|
  {
    readers[idx := (readers[idx] + 1) % 256]
  }

  function Decrement(readers: seq<nat>, idx: nat): seq<nat>
    requires idx < |readers|
  {
    readers[idx := (readers[idx] + 255) % 256]
  }

  /** One atomic step of agent `a`. Waiting on a set bit or a non-zero counter changes nothing. */
  function Step(s: State, a: nat, act: Action): State
    requires Shaped(s) && a in s.pc
  {
    var p := s.pc[a];
    if p == Idle then
      match act
      case StartRead(i) => if i < |s.readers| then s.(pc := s.pc[a := AwaitWriter(i)]) else s
      case StartWrite(i) => if i < |s.readers| then s.(pc := s.pc[a := TakeBit(i)]) else s
      case Go => s
    else
      WordInRange(|s.readers|, p.idx);
      match p
      case AwaitWriter(i) => if Locked(s.words, i) then s else s.(pc := s.pc[a := Announce(i)])
      case Announce(i) => s.(readers := Increment(s.readers, i), pc := s.pc[a := Recheck(i)])
      case Recheck(i) => s.(pc := s.pc[a := if Locked(s.words, i) then Withdraw(i) else Reading(i)])
      case Withdraw(i) => s.(readers := Decrement(s.readers, i), pc := s.pc[a := AwaitWriter(i)])
      case Reading(i) => s.(readers := Decrement(s.readers, i), pc := s.pc[a := Idle])
      case TakeBit(i) =>
        var words := FetchOr(s.words, i);
        if Locked(s.words, i) then s.(words := words) else s.(words := words, pc := s.pc[a := Drain(i)])
      case Drain(i) => if s.readers[i] != 0 then s else s.(pc := s.pc[a := Writing(i)])
      case Writing(i) => s.(words := FetchAnd(s.words, i), pc := s.pc[a := Idle])
  }

  // ----- What every step keeps -----

  predicate IsCounted(p: Pc, idx: nat) {
    p == Recheck(idx) || p == Withdraw(idx) || p == Reading(idx)
  }

  /** The agents the reader counter of `idx` stands for. */
  ghost function Counted(pc: map<nat, Pc>, idx: nat): set<nat> {
    set a | a in pc && IsCounted(pc[a], idx)
  }

  predicate Holds(p: Pc, w: nat, b: nat) {
    (p.Drain? || p.Writing?) && WordOf(p.idx) == w && BitOf(p.idx) == b
  }

  ghost predicate CountersExact(s: State) {
    forall i :: 0 <= i < |s.readers| ==> s.readers[i] == |Counted(s.pc, i)| % 256
  }

  /** A bit is set exactly while some agent holds it. */
  ghost predicate BitsExact(words: seq<nat>, pc: map<nat, Pc>) {
    forall w, b :: 0 <= w < |words| && 0 <= b < WORD_SIZE ==>
      (Bit(words[w], b) == 1 <==> exists a :: a in pc && Holds(pc[a], w, b))
  }

  /** No two agents hold the same bit. */
  ghost predicate OneHolder(pc: map<nat, Pc>) {
    forall a, a', w, b :: a in pc && a' in pc && Holds(pc[a], w, b) && Holds(pc[a'], w, b) ==> a == a'
  }

  ghost predicate Inv(s: State) {
    Shaped(s) && CountersExact(s) && BitsExact(s.words, s.pc) && OneHolder(s.pc)
  }

  lemma CountedMoves(pc: map<nat, Pc>, a: nat, p: Pc, i: nat)
    requires a in pc
    ensures |Counted(pc[a := p], i)| ==
            |Counted(pc, i)| - (if IsCounted(pc[a], i) then 1 else 0) + (if IsCounted(p, i) then 1 else 0)
  {
    var without := Counted(pc, i) - {a};
    assert Counted(pc[a := p], i) == if IsCounted(p, i) then without + {a} else without;
    assert Counted(pc, i) == if IsCounted(pc[a], i) then without + {a} else without;
  }

  /** A step between two program points that hold the same bit, or none, keeps the bits exact. */
  lemma BitsUnaffected(words: seq<nat>, pc: map<nat, Pc>, a: nat, p: Pc)
    requires a in pc && BitsExact(words, pc) && OneHolder(pc)
    requires forall w, b :: Holds(p, w, b) <==> Holds(pc[a], w, b)
    ensures BitsExact(words, pc[a := p]) && OneHolder(pc[a := p])
  {
    var pc' := pc[a := p];
    forall w, b | 0 <= w < |words| && 0 <= b < WORD_SIZE
      ensures Bit(words[w], b) == 1 <==> exists a' :: a' in pc' && Holds(pc'[a'], w, b)
    {
      if Bit(words[w], b) == 1 {
        var a' :| a' in pc && Holds(pc[a'], w, b);
        assert a' in pc' && Holds(pc'[a'], w, b);
      } else {
        forall a' | a' in pc' ensures !Holds(pc'[a'], w, b) {
          assert !Holds(pc[a'], w, b);
        }
      }
    }
    forall x, y, w, b | x in pc' && y in pc' && Holds(pc'[x], w, b) && Holds(pc'[y], w, b) ensures x == y {
      assert Holds(pc[x], w, b) && Holds(pc[y], w, b);
    }
  }

  lemma BitTaken(words: seq<nat>, pc: map<nat, Pc>, a: nat, idx: nat)
    requires a in pc && BitsExact(words, pc) && OneHolder(pc)
    requires pc[a] == TakeBit(idx) && WordOf(idx) < |words| && Bit(words[WordOf(idx)], BitOf(idx)) == 0
    ensures BitsExact(FetchOr(words, idx), pc[a := Drain(idx)]) && OneHolder(pc[a := Drain(idx)])
  {
    var words', pc' := FetchOr(words, idx), pc[a := Drain(idx)];
    forall w, b | 0 <= w < |words'| && 0 <= b < WORD_SIZE
      ensures Bit(words'[w], b) == 1 <==> exists a' :: a' in pc' && Holds(pc'[a'], w, b)
    {
      FetchOrBits(words, idx, w, b);
      assert Holds(pc'[a], w, b) <==> (w == WordOf(idx) && b == BitOf(idx));
      if exists a' :: a' in pc && Holds(pc[a'], w, b) {
        var a' :| a' in pc && Holds(pc[a'], w, b);
        assert a' in pc' && Holds(pc'[a'], w, b);
      }
      if exists a' :: a' in pc' && Holds(pc'[a'], w, b) {
        var a' :| a' in pc' && Holds(pc'[a'], w, b);
        assert a' == a || Holds(pc[a'], w, b);
      }
    }
    forall x, y, w, b | x in pc' && y in pc' && Holds(pc'[x], w, b) && Holds(pc'[y], w, b) ensures x == y {
      assert x == a || Holds(pc[x], w, b);
      assert y == a || Holds(pc[y], w, b);
    }
  }

  lemma BitDropped(words: seq<nat>, pc: map<nat, Pc>, a: nat, idx: nat)
    requires a in pc && BitsExact(words, pc) && OneHolder(pc)
    requires pc[a] == Writing(idx) && WordOf(idx) < |words|
    ensures BitsExact(FetchAnd(words, idx), pc[a := Idle]) && OneHolder(pc[a := Idle])
  {
    var words', pc' := FetchAnd(words, idx), pc[a := Idle];
    forall w, b | 0 <= w < |words'| && 0 <= b < WORD_SIZE
      ensures Bit(words'[w], b) == 1 <==> exists a' :: a' in pc' && Holds(pc'[a'], w, b)
    {
      FetchAndBits(words, idx, w, b);
      assert Holds(pc[a], w, b) <==> (w == WordOf(idx) && b == BitOf(idx));
      if Bit(words'[w], b) == 1 {
        var a' :| a' in pc && Holds(pc[a'], w, b);
        assert a' in pc' && Holds(pc'[a'], w, b);
      } else {
        forall a' | a' in pc' ensures !Holds(pc'[a'], w, b) {
          assert a' == a || !Holds(pc[a'], w, b);
        }
      }
    }
    forall x, y, w, b | x in pc' && y in pc' && Holds(pc'[x], w, b) && Holds(pc'[y], w, b) ensures x == y {
      assert Holds(pc[x], w, b) && Holds(pc[y], w, b);
    }
  }

  lemma CountersFollow(s: State, a: nat, p: Pc, readers: seq<nat>)
    requires Shaped(s) && a in s.pc && CountersExact(s) && |readers| == |s.readers|
    requires forall i :: 0 <= i < |readers| ==>
               readers[i] == (s.readers[i] + (if IsCounted(p, i) then 1 else 0) +
                              (if IsCounted(s.pc[a], i) then 255 else 0)) % 256
    ensures CountersExact(s.(readers := readers, pc := s.pc[a := p]))
  {
    forall i | 0 <= i < |readers| ensures readers[i] == |Counted(s.pc[a := p], i)| % 256 {
      CountedMoves(s.pc, a, p, i);
      CounterWraps(|Counted(s.pc, i)|, IsCounted(p, i), IsCounted(s.pc[a], i));
    }
  }

  /** The byte counter tracks the count modulo 256. */
  lemma CounterWraps(n: nat, joins: bool, leaves: bool)
    ensures (n % 256 + (if joins then 1 else 0) + (if leaves then 255 else 0)) % 256 ==
            (n - (if leaves then 1 else 0) + (if joins then 1 else 0)) % 256
  {
  }

  /** A step that moves one agent without touching bits, between points holding none or the same. */
  lemma MoveKeepsInv(s: State, a: nat, p: Pc, readers: seq<nat>)
    requires Inv(s) && a in s.pc && |readers| == |s.readers| && (p != Idle ==> p.idx < |s.readers|)
    requires forall i :: 0 <= i < |readers| ==>
               readers[i] == (s.readers[i] + (if IsCounted(p, i) then 1 else 0) +
                              (if IsCounted(s.pc[a], i) then 255 else 0)) % 256
    requires forall w, b :: Holds(p, w, b) <==> Holds(s.pc[a], w, b)
    ensures Inv(s.(readers := readers, pc := s.pc[a := p]))
  {
    CountersFollow(s, a, p, readers);
    BitsUnaffected(s.words, s.pc, a, p);
  }

  /** A step that moves one agent and touches neither bits nor counters. */
  lemma QuietMoveKeepsInv(s: State, a: nat, p: Pc)
    requires Inv(s) && a in s.pc && (p != Idle ==> p.idx < |s.readers|)
    requires forall i :: IsCounted(p, i) <==> IsCounted(s.pc[a], i)
    requires forall w, b :: Holds(p, w, b) <==> Holds(s.pc[a], w, b)
    ensures Inv(s.(pc := s.pc[a := p]))
  {
    BitsUnaffected(s.words, s.pc, a, p);
    forall i | 0 <= i < |s.readers| ensures s.readers[i] == |Counted(s.pc[a := p], i)| % 256 {
      assert Counted(s.pc[a := p], i) == Counted(s.pc, i);
    }
  }

  lemma AwaitKeepsInv(s: State, a: nat, act: Action)
    requires Inv(s) && a in s.pc && s.pc[a].AwaitWriter?
    ensures Inv(Step(s, a, act))
  {
    QuietMoveKeepsInv(s, a, Announce(s.pc[a].idx));
  }

  lemma RecheckKeepsInv(s: State, a: nat, act: Action)
    requires Inv(s) && a in s.pc && s.pc[a].Recheck?
    ensures Inv(Step(s, a, act))
  {
    QuietMoveKeepsInv(s, a, Withdraw(s.pc[a].idx));
    QuietMoveKeepsInv(s, a, Reading(s.pc[a].idx));
  }

  lemma AnnounceKeepsInv(s: State, a: nat, act: Action)
    requires Inv(s) && a in s.pc && s.pc[a].Announce?
    ensures Inv(Step(s, a, act))
  {
    var i := s.pc[a].idx;
    MoveKeepsInv(s, a, Recheck(i), Increment(s.readers, i));
  }

  lemma ReaderLeaveKeepsInv(s: State, a: nat, act: Action)
    requires Inv(s) && a in s.pc && (s.pc[a].Withdraw? || s.pc[a].Reading?)
    ensures Inv(Step(s, a, act))
  {
    var i := s.pc[a].idx;
    MoveKeepsInv(s, a, if s.pc[a].Withdraw? then AwaitWriter(i) else Idle, Decrement(s.readers, i));
  }

  lemma TakeBitKeepsInv(s: State, a: nat, act: Action)
    requires Inv(s) && a in s.pc && s.pc[a].TakeBit?
    ensures Inv(Step(s, a, act))
  {
    var i := s.pc[a].idx;
    WordInRange(|s.readers|, i);
    LockedIsBit(s.words, i);
    if Locked(s.words, i) {
      SetAgain(s.words, i);
    } else {
      WordsStayFit(s.words, i);
      BitTaken(s.words, s.pc, a, i);
      CountersFollow(s, a, Drain(i), s.readers);
    }
  }

  lemma DrainKeepsInv(s: State, a: nat, act: Action)
    requires Inv(s) && a in s.pc && s.pc[a].Drain?
    ensures Inv(Step(s, a, act))
  {
    if s.readers[s.pc[a].idx] == 0 {
      QuietMoveKeepsInv(s, a, Writing(s.pc[a].idx));
    }
  }

  lemma WriteUnlockKeepsInv(s: State, a: nat, act: Action)
    requires Inv(s) && a in s.pc && s.pc[a].Writing?
    ensures Inv(Step(s, a, act))
  {
    var i := s.pc[a].idx;
    WordInRange(|s.readers|, i);
    WordsStayFit(s.words, i);
    BitDropped(s.words, s.pc, a, i);
    CountersFollow(s, a, Idle, s.readers);
  }

  /** fetch_or on a set bit changes nothing. */
  lemma SetAgain(words: seq<nat>, idx: nat)
    requires WordOf(idx) < |words| && WordsFit(words) && Bit(words[WordOf(idx)], BitOf(idx)) == 1
    ensures FetchOr(words, idx) == words
  {
    var w := WordOf(idx);
    forall b | 0 <= b < WORD_SIZE ensures Bit(FetchOr(words, idx)[w], b) == Bit(words[w], b) {
      FetchOrBits(words, idx, w, b);
    }
    WordsStayFit(words, idx);
    BitsDetermine(FetchOr(words, idx)[w], words[w], WORD_SIZE);
  }

  lemma StepKeepsInv(s: State, a: nat, act: Action)
    requires Inv(s) && a in s.pc
    ensures Inv(Step(s, a, act))
  {
    match s.pc[a]
    case Idle =>
      var s' := Step(s, a, act);
      if s' != s {
        QuietMoveKeepsInv(s, a, s'.pc[a]);
      }
    case TakeBit(_) => TakeBitKeepsInv(s, a, act);
    case Drain(_) => DrainKeepsInv(s, a, act);
    case Writing(_) => WriteUnlockKeepsInv(s, a, act);
    case AwaitWriter(_) => AwaitKeepsInv(s, a, act);
    case Recheck(_) => RecheckKeepsInv(s, a, act);
    case Announce(_) => AnnounceKeepsInv(s, a, act);
    case Withdraw(_) => ReaderLeaveKeepsInv(s, a, act);
    case Reading(_) => ReaderLeaveKeepsInv(s, a, act);
  }

  // ----- Exclusion -----

  ghost predicate NoTwoWriters(s: State) {
    forall a, a', i :: a in s.pc && a' in s.pc && s.pc[a] == Writing(i) && s.pc[a'] == Writing(i) ==> a == a'
  }

  ghost predicate NoReaderWithWriter(s: State) {
    forall a, a', i :: a in s.pc && a' in s.pc && s.pc[a] == Writing(i) ==> s.pc[a'] != Reading(i)
  }

  lemma InvExcludesWriters(s: State)
    requires Inv(s)
    ensures NoTwoWriters(s)
  {
    forall a, a', i | a in s.pc && a' in s.pc && s.pc[a] == Writing(i) && s.pc[a'] == Writing(i) ensures a == a' {
      assert Holds(s.pc[a], WordOf(i), BitOf(i)) && Holds(s.pc[a'], WordOf(i), BitOf(i));
    }
  }

  lemma SubsetSize(x: set<nat>, y: set<nat>)
    requires x <= y
    ensures |x| <= |y|
  {
    assert y == x + (y - x);
  }

  /** How an agent comes to hold a lock: a writer through an empty drain, a reader through a clear bit. */
  lemma StepEnters(s: State, a: nat, act: Action)
    requires Shaped(s) && a in s.pc
    ensures var s' := Step(s, a, act);
            && s'.pc.Keys == s.pc.Keys && (forall x :: x in s.pc && x != a ==> s'.pc[x] == s.pc[x])
            && (s'.pc[a].Writing? ==> s.pc[a] == Drain(s'.pc[a].idx) && s.readers[s'.pc[a].idx] == 0)
            && (s'.pc[a].Reading? ==>
                  s.pc[a] == Recheck(s'.pc[a].idx) && WordOf(s'.pc[a].idx) < |s.words| &&
                  !Locked(s.words, s'.pc[a].idx))
  {
    if s.pc[a] != Idle {
      WordInRange(|s.readers|, s.pc[a].idx);
    }
  }

  /** The step of `a` would take the write lock next to a reader: it drains an index whose counted
      agents, some of them reading, are a multiple of 256, so the byte counter shows zero. */
  ghost predicate AdmitsWriter(s: State, a: nat) {
    && a in s.pc && s.pc[a].Drain? && |Counted(s.pc, s.pc[a].idx)| % 256 == 0
    && exists r :: r in s.pc && s.pc[r] == Reading(s.pc[a].idx)
  }

  lemma StepKeepsReadersOut(s: State, a: nat, act: Action)
    requires Inv(s) && a in s.pc && NoReaderWithWriter(s) && !AdmitsWriter(s, a)
    ensures NoReaderWithWriter(Step(s, a, act))
  {
    var s' := Step(s, a, act);
    StepEnters(s, a, act);
    forall x, y, i | x in s'.pc && y in s'.pc && s'.pc[x] == Writing(i) ensures s'.pc[y] != Reading(i) {
      if x != a {
        WordInRange(|s.readers|, i);
        LockedIsBit(s.words, i);
        assert Holds(s.pc[x], WordOf(i), BitOf(i));
      }
    }
  }

  /** One step from a safe state lets a writer in next to a reader in exactly this one way. */
  lemma StepKeepsReadersOutIff(s: State, a: nat, act: Action)
    requires Inv(s) && a in s.pc && NoReaderWithWriter(s)
    ensures NoReaderWithWriter(Step(s, a, act)) <==> !AdmitsWriter(s, a)
  {
    if AdmitsWriter(s, a) {
      var i := s.pc[a].idx;
      var r :| r in s.pc && s.pc[r] == Reading(i);
      var s' := Step(s, a, act);
      assert s'.pc[a] == Writing(i) && s'.pc[r] == Reading(i);
    } else {
      StepKeepsReadersOut(s, a, act);
    }
  }

  /** Every index counts at most 255 agents as readers, however many agents there are. */
  ghost predicate FewCounted(s: State) {
    forall i :: 0 <= i < |s.readers| ==> |Counted(s.pc, i)| <= 255
  }

  lemma FewCountedAdmitsNoWriter(s: State, a: nat)
    requires Shaped(s) && a in s.pc && FewCounted(s)
    ensures !AdmitsWriter(s, a)
  {
    if s.pc[a].Drain? {
      forall r | r in s.pc && s.pc[r] == Reading(s.pc[a].idx) ensures |Counted(s.pc, s.pc[a].idx)| > 0 {
        assert r in Counted(s.pc, s.pc[a].idx);
      }
    }
  }

  /** With at most 256 agents the one that drains leaves at most 255 to be counted. */
  lemma FewAgentsAdmitNoWriter(s: State, a: nat)
    requires Shaped(s) && a in s.pc && |s.pc| <= 256
    ensures !AdmitsWriter(s, a)
  {
    if s.pc[a].Drain? {
      var counted, others := Counted(s.pc, s.pc[a].idx), s.pc.Keys - {a};
      assert counted <= others;
      SubsetSize(counted, others);
      forall r | r in s.pc && s.pc[r] == Reading(s.pc[a].idx) ensures |counted| > 0 {
        assert r in counted;
      }
    }
  }

  // ----- Runs -----

  /** All locks free, every agent idle. */
  ghost function Start(agents: set<nat>, size: nat): (s: State)
    ensures Inv(s) && s.pc.Keys == agents && |s.readers| == size
  {
    var s := State(seq(Words(size), _ => 0), seq(size, _ => 0), map a | a in agents :: Idle);
    StartIsInv(s);
    s
  }

  lemma StartIsInv(s: State)
    requires |s.words| == Words(|s.readers|)
    requires forall w :: 0 <= w < |s.words| ==> s.words[w] == 0
    requires forall i :: 0 <= i < |s.readers| ==> s.readers[i] == 0
    requires forall a :: a in s.pc ==> s.pc[a] == Idle
    ensures Inv(s)
  {
    forall i | 0 <= i < |s.readers| ensures s.readers[i] == |Counted(s.pc, i)| % 256 {
      assert Counted(s.pc, i) == {};
    }
    forall w, b | 0 <= w < |s.words| && 0 <= b < WORD_SIZE
      ensures Bit(s.words[w], b) == 1 <==> exists a :: a in s.pc && Holds(s.pc[a], w, b)
    {
      BitZero(b);
    }
  }

  ghost function Next(s: State, step: (nat, Action)): (s': State)
    requires Inv(s)
    ensures Inv(s') && s'.pc.Keys == s.pc.Keys && |s'.readers| == |s.readers|
  {
    if step.0 in s.pc then
      StepKeepsInv(s, step.0, step.1);
      StepEnters(s, step.0, step.1);
      Step(s, step.0, step.1)
    else s
  }

  /** The state after a schedule of steps; steps of unknown agents are ignored. */
  ghost function Exec(s: State, schedule: seq<(nat, Action)>): (s': State)
    requires Inv(s)
    ensures Inv(s') && s'.pc.Keys == s.pc.Keys && |s'.readers| == |s.readers|
    decreases |schedule|
  {
    if schedule == [] then s else Exec(Next(s, schedule[0]), schedule[1..])
  }

  /** In every run no index has two writers, however many agents there are. */
  lemma WritersExcludeEachOther(agents: set<nat>, size: nat, schedule: seq<(nat, Action)>)
    ensures NoTwoWriters(Exec(Start(agents, size), schedule))
  {
    InvExcludesWriters(Exec(Start(agents, size), schedule));
  }

  ghost predicate AllIdle(s: State) {
    forall a :: a in s.pc ==> s.pc[a] == Idle
  }

  ghost predicate Clean(s: State) {
    (forall i :: 0 <= i < |s.readers| ==> s.readers[i] == 0) && (forall w :: 0 <= w < |s.words| ==> s.words[w] == 0)
  }

  lemma IdleIsClean(s: State)
    requires Inv(s) && AllIdle(s)
    ensures Clean(s)
  {
    forall i | 0 <= i < |s.readers| ensures s.readers[i] == 0 {
      assert Counted(s.pc, i) == {};
    }
    forall w | 0 <= w < |s.words| ensures s.words[w] == 0 {
      forall b | 0 <= b < WORD_SIZE ensures Bit(s.words[w], b) == Bit(0, b) {
        BitZero(b);
      }
      BitsDetermine(s.words[w], 0, WORD_SIZE);
    }
  }

  /** Once every agent is idle again, no bit and no counter is left behind. */
  lemma QuiescentIsClean(agents: set<nat>, size: nat, schedule: seq<(nat, Action)>)
    ensures AllIdle(Exec(Start(agents, size), schedule)) ==> Clean(Exec(Start(agents, size), schedule))
  {
    var s := Exec(Start(agents, size), schedule);
    if AllIdle(s) {
      IdleIsClean(s);
    }
  }

  /** No state along the run has a reader next to a writer. */
  ghost predicate AlwaysSafe(s: State, schedule: seq<(nat, Action)>)
    requires Inv(s)
    decreases |schedule|
  {
    NoReaderWithWriter(s) && (schedule != [] ==> AlwaysSafe(Next(s, schedule[0]), schedule[1..]))
  }

  ghost predicate NeverAdmits(s: State, schedule: seq<(nat, Action)>)
    requires Inv(s)
    decreases |schedule|
  {
    schedule != [] ==> !AdmitsWriter(s, schedule[0].0) && NeverAdmits(Next(s, schedule[0]), schedule[1..])
  }

  ghost predicate AlwaysFew(s: State, schedule: seq<(nat, Action)>)
    requires Inv(s)
    decreases |schedule|
  {
    FewCounted(s) && (schedule != [] ==> AlwaysFew(Next(s, schedule[0]), schedule[1..]))
  }

  /** A run is safe throughout exactly when none of its steps drains a wrapped counter. */
  lemma {:induction false} RunSafeIff(s: State, schedule: seq<(nat, Action)>)
    requires Inv(s) && NoReaderWithWriter(s)
    ensures AlwaysSafe(s, schedule) <==> NeverAdmits(s, schedule)
    decreases |schedule|
  {
    if schedule != [] {
      var (a, act) := schedule[0];
      if a in s.pc {
        StepKeepsReadersOutIff(s, a, act);
      }
      if NoReaderWithWriter(Next(s, schedule[0])) {
        RunSafeIff(Next(s, schedule[0]), schedule[1..]);
      }
    }
  }

  /** As long as no index counts more than 255 agents, no reader meets a writer. */
  lemma {:induction false} FewReadersRunSafely(s: State, schedule: seq<(nat, Action)>)
    requires Inv(s) && NoReaderWithWriter(s) && AlwaysFew(s, schedule)
    ensures AlwaysSafe(s, schedule) && NoReaderWithWriter(Exec(s, schedule))
    decreases |schedule|
  {
    if schedule != [] {
      var (a, act) := schedule[0];
      if a in s.pc {
        FewCountedAdmitsNoWriter(s, a);
        StepKeepsReadersOut(s, a, act);
      }
      FewReadersRunSafely(Next(s, schedule[0]), schedule[1..]);
    }
  }

  lemma {:induction false} FewAgentsRunSafely(s: State, schedule: seq<(nat, Action)>)
    requires Inv(s) && |s.pc| <= 256 && NoReaderWithWriter(s)
    ensures AlwaysSafe(s, schedule) && NoReaderWithWriter(Exec(s, schedule))
    decreases |schedule|
  {
    if schedule != [] {
      var (a, act) := schedule[0];
      var s' := Next(s, schedule[0]);
      if a in s.pc {
        FewAgentsAdmitNoWriter(s, a);
        StepKeepsReadersOut(s, a, act);
      }
      assert |s'.pc| == |s'.pc.Keys| == |s.pc.Keys| == |s.pc|;
      FewAgentsRunSafely(s', schedule[1..]);
    }
  }

  /** In every run from the start, over any number of agents, readers stay away from writers while
      every index counts at most 255 agents. */
  lemma ReadersExcludeWriters(agents: set<nat>, size: nat, schedule: seq<(nat, Action)>)
    requires AlwaysFew(Start(agents, size), schedule)
    ensures AlwaysSafe(Start(agents, size), schedule) && NoReaderWithWriter(Exec(Start(agents, size), schedule))
  {
    FewReadersRunSafely(Start(agents, size), schedule);
  }

  // ----- The counter wraps at 256 readers -----

  lemma ExecFirst(s: State, a: nat, act: Action, rest: seq<(nat, Action)>)
    requires Inv(s) && a in s.pc
    ensures Inv(Step(s, a, act)) && Exec(s, [(a, act)] + rest) == Exec(Step(s, a, act), rest)
  {
    StepKeepsInv(s, a, act);
    assert ([(a, act)] + rest)[1..] == rest;
  }

  /** `s` differs from `s0` only in agent `a`, and perhaps in the counters. */
  ghost predicate Moved(s0: State, s: State, a: nat, p: Pc) {
    Inv(s) && s.words == s0.words && s.pc == s0.pc[a := p] && |s.readers| == |s0.readers|
  }

  lemma ReaderStep(s0: State, s: State, a: nat, p: Pc, act: Action, p': Pc)
    requires Inv(s0) && a in s0.pc && |s0.words| > 0 && |s0.readers| > 0 && !Locked(s0.words, 0)
    requires Moved(s0, s, a, p)
    requires || (p == Idle && act == StartRead(0) && p' == AwaitWriter(0))
             || (p == AwaitWriter(0) && p' == Announce(0))
             || (p == Announce(0) && p' == Recheck(0))
             || (p == Recheck(0) && p' == Reading(0))
    ensures Moved(s0, Step(s, a, act), a, p')
  {
    StepKeepsInv(s, a, act);
  }

  /** One idle agent takes the read lock of index 0 while no writer is about. */
  lemma OneReaderEnters(s: State, a: nat) returns (schedule: seq<(nat, Action)>)
    requires Inv(s) && a in s.pc && s.pc[a] == Idle && |s.words| > 0 && |s.readers| > 0 && !Locked(s.words, 0)
    ensures Moved(s, Exec(s, schedule), a, Reading(0))
  {
    assert s.pc[a := Idle] == s.pc;
    var s1 := Step(s, a, StartRead(0));
    ReaderStep(s, s, a, Idle, StartRead(0), AwaitWriter(0));
    var s2 := Step(s1, a, Go);
    ReaderStep(s, s1, a, AwaitWriter(0), Go, Announce(0));
    var s3 := Step(s2, a, Go);
    ReaderStep(s, s2, a, Announce(0), Go, Recheck(0));
    ReaderStep(s, s3, a, Recheck(0), Go, Reading(0));
    schedule := [(a, Go)] + [];
    ExecFirst(s3, a, Go, []);
    ExecFirst(s2, a, Go, schedule);
    schedule := [(a, Go)] + schedule;
    ExecFirst(s1, a, Go, schedule);
    schedule := [(a, Go)] + schedule;
    ExecFirst(s, a, StartRead(0), schedule);
    schedule := [(a, StartRead(0))] + schedule;
  }

  lemma {:induction false} ExecAppend(s: State, first: seq<(nat, Action)>, second: seq<(nat, Action)>)
    requires Inv(s)
    ensures Exec(s, first + second) == Exec(Exec(s, first), second)
    decreases |first|
  {
    if first == [] {
      assert first + second == second;
    } else {
      assert (first + second)[1..] == first[1..] + second;
      var (a, act) := first[0];
      if a in s.pc {
        StepKeepsInv(s, a, act);
        ExecAppend(Step(s, a, act), first[1..], second);
      } else {
        ExecAppend(s, first[1..], second);
      }
    }
  }

  /** The agents in `who` hold the read lock of index 0; nobody else has moved. */
  ghost predicate ReadersIn(s0: State, s: State, who: set<nat>) {
    && Inv(s) && s.words == s0.words && s.pc.Keys == s0.pc.Keys && |s.readers| == |s0.readers|
    && forall a :: a in s0.pc ==> s.pc[a] == if a in who then Reading(0) else s0.pc[a]
  }

  /** A whole set of idle agents takes the read lock of index 0, one after the other. */
  lemma {:induction false} ReadersEnter(s: State, who: set<nat>) returns (schedule: seq<(nat, Action)>)
    requires Inv(s) && |s.words| > 0 && |s.readers| > 0 && !Locked(s.words, 0)
    requires who <= s.pc.Keys && forall a :: a in who ==> s.pc[a] == Idle
    ensures ReadersIn(s, Exec(s, schedule), who)
    decreases |who|
  {
    if who == {} {
      schedule := [];
    } else {
      var a :| a in who;
      var first := ReadersEnter(s, who - {a});
      var mid := Exec(s, first);
      var second := OneReaderEnters(mid, a);
      schedule := first + second;
      ExecAppend(s, first, second);
      OneMoreReader(s, mid, Exec(mid, second), who - {a}, a);
      assert who - {a} + {a} == who;
    }
  }

  lemma OneMoreReader(s: State, mid: State, s': State, who: set<nat>, a: nat)
    requires ReadersIn(s, mid, who) && a in s.pc && Moved(mid, s', a, Reading(0))
    ensures ReadersIn(s, s', who + {a})
  {
  }

  lemma {:induction false} SubsetOfSize(s: set<nat>, k: nat) returns (r: set<nat>)
    requires k <= |s|
    ensures r <= s && |r| == k
  {
    if k == |s| {
      r := s;
    } else {
      var x :| x in s;
      r := SubsetOfSize(s - {x}, k);
    }
  }

  /** With a zero counter and a clear bit, an idle agent takes the write lock in three steps. */
  lemma WriterEnters(s: State, a: nat) returns (schedule: seq<(nat, Action)>)
    requires Inv(s) && a in s.pc && s.pc[a] == Idle && |s.words| > 0 && |s.readers| > 0
    requires !Locked(s.words, 0) && s.readers[0] == 0
    ensures Exec(s, schedule).pc == s.pc[a := Writing(0)]
  {
    StepKeepsInv(s, a, StartWrite(0));
    var s1 := Step(s, a, StartWrite(0));
    StepKeepsInv(s1, a, Go);
    var s2 := Step(s1, a, Go);
    assert s2.pc == s.pc[a := Drain(0)] && s2.readers == s.readers;
    StepKeepsInv(s2, a, Go);
    var s3 := Step(s2, a, Go);
    assert s3.pc == s.pc[a := Writing(0)];
    schedule := [(a, Go)] + [];
    ExecFirst(s2, a, Go, []);
    ExecFirst(s1, a, Go, schedule);
    schedule := [(a, Go)] + schedule;
    ExecFirst(s, a, StartWrite(0), schedule);
    schedule := [(a, StartWrite(0))] + schedule;
  }

  /** 256 readers wrap the byte counter to zero, and a 257th agent then takes the write lock. */
  lemma OverflowLetsWriterIn(agents: set<nat>, size: nat) returns (schedule: seq<(nat, Action)>)
    requires |agents| > 256 && size > 0
    ensures !NoReaderWithWriter(Exec(Start(agents, size), schedule))
  {
    var s := Start(agents, size);
    assert Locked(s.words, 0) == false by {
      LockedIsBit(s.words, 0);
    }
    var who := SubsetOfSize(agents, 256);
    var rest := agents - who;
    assert |rest| > 0;
    var writer :| writer in rest;
    var reader :| reader in who;
    var first := ReadersEnter(s, who);
    var s1 := Exec(s, first);
    assert Counted(s1.pc, 0) == who;
    var second := WriterEnters(s1, writer);
    schedule := first + second;
    ExecAppend(s, first, second);
    var s2 := Exec(s, schedule);
    assert s2.pc[writer] == Writing(0) && s2.pc[reader] == Reading(0);
  }

  /** Readers and writers exclude each other in every run exactly when there are at most 256 agents. */
  lemma ReadersExcludedIff(agents: set<nat>, size: nat)
    requires size > 0
    ensures (forall schedule :: NoReaderWithWriter(Exec(Start(agents, size), schedule))) <==> |agents| <= 256
  {
    var s := Start(agents, size);
    if |agents| <= 256 {
      assert |s.pc| == |s.pc.Keys| == |agents|;
      forall schedule ensures NoReaderWithWriter(Exec(s, schedule)) {
        FewAgentsRunSafely(s, schedule);
      }
    } else {
      var schedule := OverflowLetsWriterIn(agents, size);
    }
  }

  /** While the word index does not wrap, a step on one index changes neither the bit nor the counter
      of any other, although bits share words. */
  lemma StepIsLocal(s: State, a: nat, act: Action, other: nat)
    requires Shaped(s) && a in s.pc && |s.readers| <= 0x10_0000 && other < |s.readers|
    requires s.pc[a] == Idle || s.pc[a].idx != other
    ensures WordOf(other) < |s.words| == |Step(s, a, act).words|
    ensures Locked(Step(s, a, act).words, other) == Locked(s.words, other)
    ensures Step(s, a, act).readers[other] == s.readers[other]
  {
    WordInRange(|s.readers|, other);
    var words' := Step(s, a, act).words;
    LockedIsBit(s.words, other);
    if s.pc[a].TakeBit? || s.pc[a].Writing? {
      var i := s.pc[a].idx;
      WordInRange(|s.readers|, i);
      SlotsDistinct(|s.readers|);
      LockedIsBit(words', other);
      FetchOrBits(s.words, i, WordOf(other), BitOf(other));
      FetchAndBits(s.words, i, WordOf(other), BitOf(other));
    }
  }
}
