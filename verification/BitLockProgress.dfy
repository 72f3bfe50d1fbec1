/** What the steps of the reader/writer lock (common/vtl/bitlock.hpp) do, operation by operation, and that
    they get somewhere: sessions end where they began, and every run can be finished. */
module BitLockProgress {
  import opened Bits
  import opened BitLock

  // ----- What each operation does -----

  /** The writer bit of index `i`, sixteen to a word, with a word index of 16 bits. */
  ghost predicate BitSet(s: State, i: nat) {
    i / 16 % 65536 < |s.words| && Bit(s.words[i / 16 % 65536], i % 16) == 1
  }

  /** Only the agent moves. */
  ghost predicate Moves(s: State, s': State, a: nat, p: Pc) {
    s'.words == s.words && s'.readers == s.readers && s'.pc == s.pc[a := p]
  }

  /** The agent moves, and the byte counter of `i` goes one up. */
  ghost predicate CountsUp(s: State, s': State, a: nat, p: Pc, i: nat) {
    && s'.words == s.words && s'.pc == s.pc[a := p] && |s'.readers| == |s.readers| && i < |s.readers|
    && (forall j :: 0 <= j < |s.readers| && j != i ==> s'.readers[j] == s.readers[j])
    && s'.readers[i] == if s.readers[i] == 255 then 0 else s.readers[i] + 1
  }

  /** The agent moves, and the byte counter of `i` goes one down. */
  ghost predicate CountsDown(s: State, s': State, a: nat, p: Pc, i: nat) {
    && s'.words == s.words && s'.pc == s.pc[a := p] && |s'.readers| == |s.readers| && i < |s.readers|
    && (forall j :: 0 <= j < |s.readers| && j != i ==> s'.readers[j] == s.readers[j])
    && s'.readers[i] == if s.readers[i] == 0 then 255 else s.readers[i] - 1
  }

  /** The agent moves, and the writer bit of `i` and no other becomes `bit`. */
  ghost predicate WritesBit(s: State, s': State, a: nat, p: Pc, i: nat, bit: nat) {
    && s'.readers == s.readers && s'.pc == s.pc[a := p] && |s'.words| == |s.words|
    && forall w, b :: 0 <= w < |s.words| && 0 <= b < 16 ==>
         Bit(s'.words[w], b) == if w == i / 16 % 65536 && b == i % 16 then bit else Bit(s.words[w], b)
  }

  /** The operations of rlock, wlock, runlock and wunlock, on bits and counters. */
  ghost predicate Operates(s: State, a: nat, act: Action, s': State)
    requires a in s.pc
  {
    match s.pc[a]
    case Idle =>
      if act.StartRead? && act.idx < |s.readers| then Moves(s, s', a, AwaitWriter(act.idx))
      else if act.StartWrite? && act.idx < |s.readers| then Moves(s, s', a, TakeBit(act.idx))
      else s' == s
    case AwaitWriter(i) => if BitSet(s, i) then s' == s else Moves(s, s', a, Announce(i))
    case Announce(i) => CountsUp(s, s', a, Recheck(i), i)
    case Recheck(i) => Moves(s, s', a, if BitSet(s, i) then Withdraw(i) else Reading(i))
    case Withdraw(i) => CountsDown(s, s', a, AwaitWriter(i), i)
    case Reading(i) => CountsDown(s, s', a, Idle, i)
    case TakeBit(i) => if BitSet(s, i) then s' == s else WritesBit(s, s', a, Drain(i), i, 1)
    case Drain(i) => if i < |s.readers| && s.readers[i] != 0 then s' == s else Moves(s, s', a, Writing(i))
    case Writing(i) => WritesBit(s, s', a, Idle, i, 0)
  }

  lemma LockedIsBitSet(s: State, i: nat)
    requires Shaped(s) && i < |s.readers|
    ensures WordOf(i) < |s.words| && (Locked(s.words, i) <==> BitSet(s, i))
  {
    WordInRange(|s.readers|, i);
    LockedIsBit(s.words, i);
  }

  lemma BitOperations(s: State, s': State, a: nat, p: Pc, i: nat, taken: bool)
    requires Shaped(s) && a in s.pc && i < |s.readers| && WordOf(i) < |s.words|
    requires s' == s.(words := if taken then FetchOr(s.words, i) else FetchAnd(s.words, i), pc := s.pc[a := p])
    ensures WritesBit(s, s', a, p, i, if taken then 1 else 0)
  {
    forall w, b | 0 <= w < |s.words| && 0 <= b < 16
      ensures Bit(s'.words[w], b) ==
              if w == i / 16 % 65536 && b == i % 16 then (if taken then 1 else 0) else Bit(s.words[w], b)
    {
      FetchOrBits(s.words, i, w, b);
      FetchAndBits(s.words, i, w, b);
    }
  }

  lemma IdleOperates(s: State, a: nat, act: Action)
    requires Shaped(s) && a in s.pc && s.pc[a] == Idle
    ensures Operates(s, a, act, Step(s, a, act))
  {
  }

  lemma WaitOperates(s: State, a: nat, act: Action)
    requires Shaped(s) && a in s.pc && (s.pc[a].AwaitWriter? || s.pc[a].Recheck? || s.pc[a].Drain?)
    ensures Operates(s, a, act, Step(s, a, act))
  {
    LockedIsBitSet(s, s.pc[a].idx);
  }

  lemma CountOperates(s: State, a: nat, act: Action)
    requires Shaped(s) && a in s.pc && (s.pc[a].Announce? || s.pc[a].Withdraw? || s.pc[a].Reading?)
    requires s.readers[s.pc[a].idx] < 256
    ensures Operates(s, a, act, Step(s, a, act))
  {
  }

  lemma TakeOperates(s: State, a: nat, act: Action)
    requires Shaped(s) && a in s.pc && s.pc[a].TakeBit?
    ensures Operates(s, a, act, Step(s, a, act))
  {
    var i := s.pc[a].idx;
    LockedIsBitSet(s, i);
    if Locked(s.words, i) {
      SetAgain(s.words, i);
    } else {
      BitOperations(s, Step(s, a, act), a, Drain(i), i, true);
    }
  }

  lemma UnlockOperates(s: State, a: nat, act: Action)
    requires Shaped(s) && a in s.pc && s.pc[a].Writing?
    ensures Operates(s, a, act, Step(s, a, act))
  {
    LockedIsBitSet(s, s.pc[a].idx);
    BitOperations(s, Step(s, a, act), a, Idle, s.pc[a].idx, false);
  }

  /** Every step is the operation its program point stands for. */
  lemma StepOperates(s: State, a: nat, act: Action)
    requires Inv(s) && a in s.pc
    ensures Operates(s, a, act, Step(s, a, act))
  {
    match s.pc[a]
    case Idle => IdleOperates(s, a, act);
    case AwaitWriter(_) => WaitOperates(s, a, act);
    case Recheck(_) => WaitOperates(s, a, act);
    case Drain(_) => WaitOperates(s, a, act);
    case Announce(_) => CountOperates(s, a, act);
    case Withdraw(_) => CountOperates(s, a, act);
    case Reading(_) => CountOperates(s, a, act);
    case TakeBit(_) => TakeOperates(s, a, act);
    case Writing(_) => UnlockOperates(s, a, act);
  }

  /** wunlock: one step leaves the agent idle and the bit clear, and touches nothing else. */
  lemma WriteUnlocks(s: State, a: nat, i: nat, act: Action)
    requires Inv(s) && a in s.pc && s.pc[a] == Writing(i)
    ensures !BitSet(Step(s, a, act), i) && WritesBit(s, Step(s, a, act), a, Idle, i, 0)
  {
    StepOperates(s, a, act);
    LockedIsBitSet(s, i);
  }

  /** runlock: one step leaves the agent idle and the counter one lower, and touches nothing else. */
  lemma ReadUnlocks(s: State, a: nat, i: nat, act: Action)
    requires Inv(s) && a in s.pc && s.pc[a] == Reading(i)
    ensures CountsDown(s, Step(s, a, act), a, Idle, i) && s.readers[i] == |Counted(s.pc, i)| % 256
  {
    StepOperates(s, a, act);
  }

  // ----- Sessions -----

  /** Only agent `a` takes steps. */
  ghost predicate OnlyBy(schedule: seq<(nat, Action)>, a: nat) {
    forall k :: 0 <= k < |schedule| ==> schedule[k].0 == a
  }

  lemma StepThenRun(s: State, a: nat, act: Action, rest: seq<(nat, Action)>) returns (schedule: seq<(nat, Action)>)
    requires Inv(s) && a in s.pc && OnlyBy(rest, a)
    ensures Inv(Step(s, a, act)) && OnlyBy(schedule, a) && Exec(s, schedule) == Exec(Step(s, a, act), rest)
  {
    schedule := [(a, act)] + rest;
    ExecFirst(s, a, act, rest);
  }

  /** No bit is set and no counter runs, so an agent on its own is never kept waiting. */
  ghost predicate Free(s: State, i: nat) { i < |s.readers| && !BitSet(s, i) && s.readers[i] == 0 }

  lemma IdleIsFree(s: State, i: nat)
    requires Inv(s) && AllIdle(s) && i < |s.readers|
    ensures Free(s, i)
  {
    IdleIsClean(s);
    BitZero(i % 16);
  }

  lemma SameWhenIdle(s: State, s': State)
    requires Inv(s) && Inv(s') && AllIdle(s) && AllIdle(s') && s.pc.Keys == s'.pc.Keys && |s.readers| == |s'.readers|
    ensures s == s'
  {
    IdleIsClean(s);
    IdleIsClean(s');
    assert s.words == s'.words && s.readers == s'.readers;
    assert s.pc == s'.pc;
  }

  /** Two steps of one agent, the first to `s1`. */
  lemma TwoSteps(s: State, a: nat, act: Action, s1: State) returns (schedule: seq<(nat, Action)>)
    requires Inv(s) && a in s.pc && s1 == Step(s, a, act) && a in s1.pc
    ensures Inv(s1) && OnlyBy(schedule, a) && Exec(s, schedule) == Step(s1, a, Go)
  {
    StepKeepsInv(s, a, act);
    schedule := StepThenRun(s1, a, Go, []);
    schedule := StepThenRun(s, a, act, schedule);
  }

  lemma RunBoth(s: State, a: nat, first: seq<(nat, Action)>, second: seq<(nat, Action)>)
    returns (schedule: seq<(nat, Action)>)
    requires Inv(s) && OnlyBy(first, a) && OnlyBy(second, a)
    ensures OnlyBy(schedule, a) && Exec(s, schedule) == Exec(Exec(s, first), second)
  {
    schedule := first + second;
    ExecAppend(s, first, second);
  }

  /** An idle agent gets past the wait of a free index. */
  lemma ReaderArrives(s: State, a: nat, i: nat) returns (schedule: seq<(nat, Action)>)
    requires Inv(s) && a in s.pc && s.pc[a] == Idle && Free(s, i)
    ensures OnlyBy(schedule, a) && Moves(s, Exec(s, schedule), a, Announce(i))
  {
    var s1 := Step(s, a, StartRead(i));
    StepOperates(s, a, StartRead(i));
    schedule := TwoSteps(s, a, StartRead(i), s1);
    StepOperates(s1, a, Go);
    assert s.pc[a := AwaitWriter(i)][a := Announce(i)] == s.pc[a := Announce(i)];
  }

  /** Past the wait, it gets in. */
  lemma ReaderEnters(s: State, a: nat, i: nat) returns (schedule: seq<(nat, Action)>)
    requires Inv(s) && a in s.pc && s.pc[a] == Announce(i) && Free(s, i)
    ensures OnlyBy(schedule, a) && Exec(s, schedule).pc == s.pc[a := Reading(i)]
  {
    var s1 := Step(s, a, Go);
    StepOperates(s, a, Go);
    schedule := TwoSteps(s, a, Go, s1);
    StepOperates(s1, a, Go);
    assert s.pc[a := Recheck(i)][a := Reading(i)] == s.pc[a := Reading(i)];
  }

  /** An idle agent takes the bit of a free index. */
  lemma WriterArrives(s: State, a: nat, i: nat) returns (schedule: seq<(nat, Action)>)
    requires Inv(s) && a in s.pc && s.pc[a] == Idle && Free(s, i)
    ensures OnlyBy(schedule, a) && WritesBit(s, Exec(s, schedule), a, Drain(i), i, 1)
  {
    var s1 := Step(s, a, StartWrite(i));
    StepOperates(s, a, StartWrite(i));
    schedule := TwoSteps(s, a, StartWrite(i), s1);
    StepOperates(s1, a, Go);
    assert s.pc[a := TakeBit(i)][a := Drain(i)] == s.pc[a := Drain(i)];
  }

  lemma WriterDrains(s: State, a: nat, i: nat) returns (schedule: seq<(nat, Action)>)
    requires Inv(s) && a in s.pc && s.pc[a] == Drain(i) && i < |s.readers| && s.readers[i] == 0
    ensures OnlyBy(schedule, a) && Exec(s, schedule).pc == s.pc[a := Writing(i)]
  {
    StepOperates(s, a, Go);
    schedule := StepThenRun(s, a, Go, []);
  }

  /** Giving back the only lock held restores the quiet state. */
  lemma GivingBackRestores(s: State, held: State, a: nat, i: nat) returns (schedule: seq<(nat, Action)>)
    requires Inv(s) && AllIdle(s) && a in s.pc && Inv(held) && |held.readers| == |s.readers|
    requires held.pc == s.pc[a := Reading(i)] || held.pc == s.pc[a := Writing(i)]
    ensures OnlyBy(schedule, a) && |schedule| == 1 && Exec(held, schedule) == s
  {
    StepOperates(held, a, Go);
    StepKeepsInv(held, a, Go);
    var s' := Step(held, a, Go);
    assert s'.pc == held.pc[a := Idle] == s.pc;
    SameWhenIdle(s, s');
    schedule := [(a, Go)];
    ExecFirst(held, a, Go, []);
  }

  /** On a quiet lock every agent can, by its own steps, take the read lock of every index, and giving it back
      by one more step restores the state. */
  lemma ReadSessionEnds(s: State, a: nat, i: nat) returns (take: seq<(nat, Action)>, release: seq<(nat, Action)>)
    requires Inv(s) && AllIdle(s) && a in s.pc && i < |s.readers|
    ensures OnlyBy(take, a) && Exec(s, take).pc == s.pc[a := Reading(i)]
    ensures OnlyBy(release, a) && |release| == 1 && Exec(Exec(s, take), release) == s
  {
    IdleIsFree(s, i);
    var arrive := ReaderArrives(s, a, i);
    var s1 := Exec(s, arrive);
    var enter := ReaderEnters(s1, a, i);
    take := RunBoth(s, a, arrive, enter);
    assert s1.pc[a := Reading(i)] == s.pc[a := Reading(i)];
    release := GivingBackRestores(s, Exec(s, take), a, i);
  }

  /** The same for the write lock. */
  lemma WriteSessionEnds(s: State, a: nat, i: nat) returns (take: seq<(nat, Action)>, release: seq<(nat, Action)>)
    requires Inv(s) && AllIdle(s) && a in s.pc && i < |s.readers|
    ensures OnlyBy(take, a) && Exec(s, take).pc == s.pc[a := Writing(i)]
    ensures OnlyBy(release, a) && |release| == 1 && Exec(Exec(s, take), release) == s
  {
    IdleIsFree(s, i);
    var arrive := WriterArrives(s, a, i);
    var s1 := Exec(s, arrive);
    var drain := WriterDrains(s1, a, i);
    take := RunBoth(s, a, arrive, drain);
    assert s1.pc[a := Writing(i)] == s.pc[a := Writing(i)];
    release := GivingBackRestores(s, Exec(s, take), a, i);
  }

  // ----- Every run can be finished -----

  /** What is left to do, for writers, and for readers with and without writers about. */
  datatype Load = Writers | ReadersAmongWriters | ReadersAlone

  ghost function Weight(load: Load, p: Pc): nat {
    match load
    case Writers => if p.TakeBit? then 3 else if p.Drain? then 2 else if p.Writing? then 1 else 0
    case ReadersAmongWriters => if p.Recheck? then 2 else if p.Withdraw? || p.Reading? then 1 else 0
    case ReadersAlone =>
      if p.Withdraw? then 5 else if p.AwaitWriter? then 4 else if p.Announce? then 3 else if p.Recheck? then 2
      else if p.Reading? then 1 else 0
  }

  ghost function WorkOf(load: Load, pc: map<nat, Pc>, agents: set<nat>): nat
    requires agents <= pc.Keys
  {
    if agents == {} then 0
    else
      var a: nat :| a in agents;
      Weight(load, pc[a]) + WorkOf(load, pc, agents - {a})
  }

  ghost function Work(load: Load, pc: map<nat, Pc>): nat { WorkOf(load, pc, pc.Keys) }

  lemma {:induction false} WorkWithout(load: Load, pc: map<nat, Pc>, agents: set<nat>, a: nat)
    requires agents <= pc.Keys && a in agents
    ensures WorkOf(load, pc, agents) == Weight(load, pc[a]) + WorkOf(load, pc, agents - {a})
    decreases |agents|
  {
    var b: nat :| b in agents && WorkOf(load, pc, agents) == Weight(load, pc[b]) + WorkOf(load, pc, agents - {b});
    if b != a {
      WorkWithout(load, pc, agents - {b}, a);
      WorkWithout(load, pc, agents - {a}, b);
      assert agents - {b} - {a} == agents - {a} - {b};
    }
  }

  lemma {:induction false} WorkUnchanged(load: Load, pc: map<nat, Pc>, pc': map<nat, Pc>, agents: set<nat>)
    requires agents <= pc.Keys && agents <= pc'.Keys && forall a :: a in agents ==> pc[a] == pc'[a]
    ensures WorkOf(load, pc, agents) == WorkOf(load, pc', agents)
    decreases |agents|
  {
    if agents != {} {
      var a: nat :| a in agents;
      WorkWithout(load, pc, agents, a);
      WorkWithout(load, pc', agents, a);
      WorkUnchanged(load, pc, pc', agents - {a});
    }
  }

  lemma WorkMoves(load: Load, pc: map<nat, Pc>, a: nat, p: Pc)
    requires a in pc
    ensures Work(load, pc[a := p]) + Weight(load, pc[a]) == Work(load, pc) + Weight(load, p)
  {
    var pc' := pc[a := p];
    assert pc'.Keys == pc.Keys;
    WorkWithout(load, pc, pc.Keys, a);
    WorkWithout(load, pc', pc.Keys, a);
    WorkUnchanged(load, pc, pc', pc.Keys - {a});
  }

  /** Writers first, then readers. */
  ghost function ReaderWork(s: State): nat {
    Work(if Work(Writers, s.pc) > 0 then ReadersAmongWriters else ReadersAlone, s.pc)
  }

  ghost predicate LessWork(s': State, s: State) {
    || Work(Writers, s'.pc) < Work(Writers, s.pc)
    || (Work(Writers, s'.pc) == Work(Writers, s.pc) && ReaderWork(s') < ReaderWork(s))
  }

  lemma MoveIsLessWork(s: State, s': State, a: nat, p: Pc)
    requires a in s.pc && s'.pc == s.pc[a := p]
    requires || Weight(Writers, p) < Weight(Writers, s.pc[a])
             || (Weight(Writers, p) == Weight(Writers, s.pc[a]) &&
                 Weight(ReadersAmongWriters, p) < Weight(ReadersAmongWriters, s.pc[a]) &&
                 Weight(ReadersAlone, p) < Weight(ReadersAlone, s.pc[a]))
             || (Work(Writers, s.pc) == 0 && Weight(Writers, p) == 0 &&
                 Weight(ReadersAlone, p) < Weight(ReadersAlone, s.pc[a]))
             || (Work(Writers, s.pc) > 0 && Weight(Writers, p) == Weight(Writers, s.pc[a]) &&
                 Weight(ReadersAmongWriters, p) < Weight(ReadersAmongWriters, s.pc[a]))
    ensures LessWork(s', s)
  {
    WorkMoves(Writers, s.pc, a, p);
    WorkMoves(ReadersAmongWriters, s.pc, a, p);
    WorkMoves(ReadersAlone, s.pc, a, p);
    WorkWithout(Writers, s.pc, s.pc.Keys, a);
  }

  lemma NoWriterLeft(s: State, a: nat)
    requires Work(Writers, s.pc) == 0 && a in s.pc
    ensures !s.pc[a].TakeBit? && !s.pc[a].Drain? && !s.pc[a].Writing?
  {
    WorkWithout(Writers, s.pc, s.pc.Keys, a);
  }

  /** A bit without holder is clear. */
  lemma NobodyHolds(s: State, i: nat)
    requires Inv(s) && i < |s.readers| && forall a :: a in s.pc ==> !s.pc[a].Drain? && !s.pc[a].Writing?
    ensures !BitSet(s, i)
  {
    LockedIsBitSet(s, i);
  }

  /** An agent that holds the write lock or counts as a reader can always go on. */
  lemma LeavingIsLessWork(s: State, a: nat)
    requires Inv(s) && a in s.pc && (s.pc[a].Writing? || s.pc[a].Reading? || s.pc[a].Withdraw?)
    ensures LessWork(Step(s, a, Go), s)
  {
    var p := s.pc[a];
    StepOperates(s, a, Go);
    MoveIsLessWork(s, Step(s, a, Go), a, if p.Withdraw? then AwaitWriter(p.idx) else Idle);
  }

  lemma RecheckIsLessWork(s: State, a: nat)
    requires Inv(s) && a in s.pc && s.pc[a].Recheck?
    ensures LessWork(Step(s, a, Go), s)
  {
    var i := s.pc[a].idx;
    StepOperates(s, a, Go);
    if Work(Writers, s.pc) == 0 {
      forall b | b in s.pc ensures !s.pc[b].Drain? && !s.pc[b].Writing? {
        NoWriterLeft(s, b);
      }
      NobodyHolds(s, i);
    }
    MoveIsLessWork(s, Step(s, a, Go), a, if BitSet(s, i) then Withdraw(i) else Reading(i));
  }

  /** With nobody inside, a draining writer gets in. */
  lemma DrainIsLessWork(s: State, a: nat)
    requires Inv(s) && a in s.pc && s.pc[a].Drain? && forall b :: b in s.pc ==> !IsCounted(s.pc[b], s.pc[a].idx)
    ensures LessWork(Step(s, a, Go), s)
  {
    StepOperates(s, a, Go);
    assert Counted(s.pc, s.pc[a].idx) == {};
    MoveIsLessWork(s, Step(s, a, Go), a, Writing(s.pc[a].idx));
  }

  /** With no bit held, a waiting agent goes on. */
  lemma WaitIsLessWork(s: State, a: nat)
    requires Inv(s) && a in s.pc && forall b :: b in s.pc ==> !s.pc[b].Drain? && !s.pc[b].Writing?
    requires s.pc[a].TakeBit? || (Work(Writers, s.pc) == 0 && (s.pc[a].AwaitWriter? || s.pc[a].Announce?))
    ensures LessWork(Step(s, a, Go), s)
  {
    StepOperates(s, a, Go);
    var i := s.pc[a].idx;
    NobodyHolds(s, i);
    var p := if s.pc[a].TakeBit? then Drain(i) else if s.pc[a].AwaitWriter? then Announce(i) else Recheck(i);
    MoveIsLessWork(s, Step(s, a, Go), a, p);
  }

  ghost predicate Leaving(p: Pc) { p.Writing? || p.Reading? || p.Withdraw? }

  /** Unless all are idle, some agent's step leaves less to do. */
  lemma SomeoneCanGo(s: State) returns (a: nat)
    requires Inv(s) && !AllIdle(s)
    ensures a in s.pc && LessWork(Step(s, a, Go), s)
  {
    if b: nat :| b in s.pc && Leaving(s.pc[b]) {
      a := b;
      LeavingIsLessWork(s, a);
    } else if b: nat :| b in s.pc && s.pc[b].Recheck? {
      a := b;
      RecheckIsLessWork(s, a);
    } else if b: nat :| b in s.pc && s.pc[b].Drain? {
      a := b;
      DrainIsLessWork(s, a);
    } else if b: nat :| b in s.pc && s.pc[b].TakeBit? {
      a := b;
      WaitIsLessWork(s, a);
    } else {
      a :| a in s.pc && s.pc[a] != Idle;
      NoWritersNoWork(s.pc, s.pc.Keys);
      WaitIsLessWork(s, a);
    }
  }

  lemma {:induction false} NoWritersNoWork(pc: map<nat, Pc>, agents: set<nat>)
    requires agents <= pc.Keys && forall a :: a in agents ==> Weight(Writers, pc[a]) == 0
    ensures WorkOf(Writers, pc, agents) == 0
    decreases |agents|
  {
    if agents != {} {
      var a: nat :| a in agents;
      WorkWithout(Writers, pc, agents, a);
      NoWritersNoWork(pc, agents - {a});
    }
  }

  /** From every state of every run some continuation lets all agents finish, so the lock never deadlocks. */
  lemma {:induction false} EveryRunCanFinish(s: State) returns (schedule: seq<(nat, Action)>)
    requires Inv(s)
    ensures AllIdle(Exec(s, schedule)) && Clean(Exec(s, schedule))
    decreases Work(Writers, s.pc), ReaderWork(s)
  {
    if AllIdle(s) {
      schedule := [];
      IdleIsClean(s);
    } else {
      var a := SomeoneCanGo(s);
      StepKeepsInv(s, a, Go);
      var rest := EveryRunCanFinish(Step(s, a, Go));
      schedule := [(a, Go)] + rest;
      ExecFirst(s, a, Go, rest);
    }
  }
}
