/** The search for the best rescale factor (common/rabitq/utils.h).

    Codes are increased one coordinate at a time, in the order in which a growing factor `t` makes
    them jump, with numerator and denominator of the cosine updated on the way. The factor returned
    is the one whose code had the largest cosine.
 */
module Rescale {
  import opened Bits
  import opened Heaps
  import opened Vectors
  import opened RabitqCodes

  const EXTRA_STEPS: real := 10.0
  const TIGHT_START: seq<real> := [0.0, 0.15, 0.20, 0.52, 0.59, 0.71, 0.75, 0.77, 0.81]

  datatype Item = Item(t: real, id: nat)

  /** std::greater on pairs, so that the smallest pair is on top. */
  predicate After(a: Item, b: Item) {
    a.t > b.t || (a.t == b.t && a.id > b.id)
  }

  function ItemOrder(): (Item, Item) -> bool { (a, b) => After(a, b) }

  lemma ItemsAreOrdered()
    ensures TotalOrder(ItemOrder())
  {
    forall a, b, c ensures Law(ItemOrder(), a, b, c) {
    }
  }

  // ----- Numerator and denominator -----

  function Numerator(code: seq<nat>, o: Vector): real
    requires |code| == |o|
  {
    Dot(Halves(code), o)
  }

  function Denominator(code: seq<nat>): real {
    Dot(Halves(code), Halves(code))
  }

  function Bump(code: seq<nat>, i: nat): (c: seq<nat>)
    requires i < |code|
    ensures |c| == |code|
  {
    code[i := code[i] + 1]
  }

  lemma {:induction false} BumpNumerator(code: seq<nat>, o: Vector, i: nat, hi: nat)
    requires |code| == |o| && i < |o| && hi <= |o|
    ensures DotRange(Halves(Bump(code, i)), o, 0, hi)
         == DotRange(Halves(code), o, 0, hi) + (if i < hi then o[i] else 0.0)
  {
    if hi > 0 {
      BumpNumerator(code, o, i, hi - 1);
      OneMore(code[hi - 1] as real + 0.5, o[hi - 1]);
    }
  }

  lemma OneMore(h: real, x: real)
    ensures (h + 1.0) * x == h * x + x
  {
  }

  lemma {:induction false} BumpDenominator(code: seq<nat>, i: nat, hi: nat)
    requires i < |code| && hi <= |code|
    ensures DotRange(Halves(Bump(code, i)), Halves(Bump(code, i)), 0, hi)
         == DotRange(Halves(code), Halves(code), 0, hi) + (if i < hi then 2.0 * (code[i] + 1) as real else 0.0)
  {
    if hi > 0 {
      BumpDenominator(code, i, hi - 1);
      NextSquare(code[hi - 1] as real);
    }
  }

  lemma NextSquare(c: real)
    ensures (c + 1.0 + 0.5) * (c + 1.0 + 0.5) == (c + 0.5) * (c + 0.5) + 2.0 * (c + 1.0)
  {
  }

  lemma {:induction false} DenominatorPositive(code: seq<nat>, hi: nat)
    requires hi <= |code|
    ensures DotRange(Halves(code), Halves(code), 0, hi) >= 0.0
    ensures hi > 0 ==> DotRange(Halves(code), Halves(code), 0, hi) > 0.0
  {
    if hi > 0 {
      DenominatorPositive(code, hi - 1);
      SquarePositive(Halves(code)[hi - 1], Halves(code)[hi - 1] * Halves(code)[hi - 1]);
    }
  }

  // ----- The start -----

  ghost predicate NonNegative(o: Vector) {
    forall i :: 0 <= i < |o| ==> o[i] >= 0.0
  }

  method MaxElement(o: Vector) returns (max: real)
    requires |o| > 0
    ensures max in o && forall i :: 0 <= i < |o| ==> o[i] <= max
  {
    max := o[0];
    for i := 1 to |o|
      invariant max in o && forall j :: 0 <= j < i ==> o[j] <= max
    {
      if o[i] > max {
        max := o[i];
      }
    }
  }

  /** The code at the start of the search. */
  ghost function StartCode(o: Vector, t: real): (code: seq<nat>)
    requires NonNegative(o) && t >= 0.0
    ensures |code| == |o|
  {
    seq(|o|, i requires 0 <= i < |o| => Truncated(t, o[i]))
  }

  function Truncated(t: real, x: real): (c: nat)
    requires t >= 0.0 && x >= 0.0
    ensures c as real <= t * x + EPS < c as real + 1.0
  {
    ScaledNonNegative(t, x, t * x);
    (t * x + EPS).Floor
  }

  lemma ScaledNonNegative(t: real, x: real, tx: real)
    requires t >= 0.0 && x >= 0.0 && tx == t * x
    ensures tx >= 0.0
  {
  }

  /** The first loop: the starting code with its two sums. */
  method Start(o: Vector, t: real) returns (code: seq<nat>, numerator: real, denominator: real)
    requires NonNegative(o) && t >= 0.0
    ensures code == StartCode(o, t) && numerator == Numerator(code, o) && denominator == Denominator(code)
  {
    code, numerator, denominator := [], 0.0, |o| as real * 0.25;
    ghost var h := Halves(StartCode(o, t));
    for i := 0 to |o|
      invariant |code| == i && forall j :: 0 <= j < i ==> code[j] == StartCode(o, t)[j]
      invariant numerator == DotRange(h, o, 0, i)
      invariant denominator == DotRange(h, h, 0, i) + (|o| - i) as real * 0.25
    {
      var cur := Truncated(t, o[i]);
      code := code + [cur];
      denominator := denominator + (cur * cur + cur) as real;
      numerator := numerator + (cur as real + 0.5) * o[i];
      HalfSquare(cur);
    }
  }

  lemma HalfSquare(c: nat)
    ensures (c as real + 0.5) * (c as real + 0.5) == (c * c + c) as real + 0.25
  {
    SquareAsReal(c);
  }

  lemma SquareAsReal(c: nat)
    ensures (c * c) as real == c as real * c as real
  {
  }

  // ----- The queue -----

  function NextJump(o: Vector, code: seq<nat>, i: nat): real
    requires i < |o| == |code| && o[i] > 0.0
  {
    (code[i] + 1) as real / o[i]
  }

  /** The item is the next jump of its coordinate, not before `lastT`. */
  ghost predicate IsNext(o: Vector, code: seq<nat>, lastT: real, x: Item) {
    x.id < |o| == |code| && o[x.id] > EPS && x.t == NextJump(o, code, x.id) && lastT <= x.t
  }

  ghost predicate Pending(o: Vector, code: seq<nat>, lastT: real, queue: seq<Item>) {
    && IsHeap(ItemOrder(), queue)
    && (forall x :: x in queue ==> IsNext(o, code, lastT, x))
    && (forall x :: multiset(queue)[x] <= 1)
  }

  /** No coordinate outruns the factor. */
  ghost predicate Behind(o: Vector, code: seq<nat>, lastT: real) {
    |code| == |o| && forall i :: 0 <= i < |o| ==> code[i] as real <= lastT * o[i] + EPS
  }

  /** Up to the end of the search no coordinate falls behind the factor by more than a step, unless it is full. */
  ghost predicate Ahead(o: Vector, code: seq<nat>, lastT: real, max: nat, tEnd: real) {
    |code| == |o| && forall i :: 0 <= i < |o| && o[i] > EPS ==> JumpAfter(o, code, lastT, max, tEnd, i)
  }

  ghost predicate JumpAfter(o: Vector, code: seq<nat>, lastT: real, max: nat, tEnd: real, i: nat)
    requires i < |o| == |code| && o[i] > EPS
  {
    code[i] >= max || tEnd <= NextJump(o, code, i) || lastT <= NextJump(o, code, i)
  }

  /** Every coordinate worth scaling is queued, full, or done with. */
  ghost predicate Covered(o: Vector, code: seq<nat>, max: nat, tEnd: real, queue: seq<Item>) {
    |code| == |o| && forall i: nat :: i < |o| && o[i] > EPS ==> QueuedOrDone(o, code, max, tEnd, queue, i)
  }

  ghost predicate QueuedOrDone(o: Vector, code: seq<nat>, max: nat, tEnd: real, queue: seq<Item>, i: nat)
    requires i < |o| == |code| && o[i] > EPS
  {
    code[i] >= max || tEnd <= NextJump(o, code, i) || Item(NextJump(o, code, i), i) in queue
  }

  lemma CoveredIsAhead(o: Vector, code: seq<nat>, lastT: real, max: nat, tEnd: real, queue: seq<Item>)
    requires Pending(o, code, lastT, queue) && Covered(o, code, max, tEnd, queue)
    ensures Ahead(o, code, lastT, max, tEnd)
  {
    forall i | 0 <= i < |o| && o[i] > EPS ensures JumpAfter(o, code, lastT, max, tEnd, i) {
      assert QueuedOrDone(o, code, max, tEnd, queue, i);
      assert Item(NextJump(o, code, i), i) in queue ==> IsNext(o, code, lastT, Item(NextJump(o, code, i), i));
    }
  }

  /** Popping one coordinate leaves the others as they were. */
  lemma PopKeepsOthers(o: Vector, code: seq<nat>, max: nat, tEnd: real, queue: seq<Item>, rest: seq<Item>, x: Item,
                       i: nat)
    requires Covered(o, code, max, tEnd, queue) && multiset(queue) == multiset(rest) + multiset{x}
    requires i < |o| && o[i] > EPS && x.id < |o| && i != x.id
    ensures QueuedOrDone(o, Bump(code, x.id), max, tEnd, rest, i)
  {
    var y := Item(NextJump(o, code, i), i);
    assert QueuedOrDone(o, code, max, tEnd, queue, i);
    assert y in queue ==> y in multiset(queue);
    assert y in multiset(rest) ==> y in rest;
  }

  /** How far a coordinate may get: one jump past its start, or the largest code. */
  function Cap(start: nat, max: nat): nat { if start + 1 > max then start + 1 else max }

  ghost predicate Bounded(start: seq<nat>, max: nat, code: seq<nat>, queue: seq<Item>) {
    && |start| == |code|
    && (forall i :: 0 <= i < |code| ==> start[i] <= code[i] <= Cap(start[i], max))
    && (forall x :: x in queue ==> x.id < |code| && code[x.id] < Cap(start[x.id], max))
  }

  lemma JumpsGrow(o: Vector, code: seq<nat>, i: nat)
    requires i < |o| == |code| && o[i] > 0.0
    ensures NextJump(o, code, i) < NextJump(o, Bump(code, i), i)
    ensures NextJump(o, code, i) * o[i] == (code[i] + 1) as real
  {
  }

  /** Items of one coordinate are equal, so no item left in the queue is of the coordinate popped. */
  lemma OthersLeft(o: Vector, code: seq<nat>, lastT: real, queue: seq<Item>, rest: seq<Item>, x: Item, y: Item)
    requires Pending(o, code, lastT, queue) && multiset(queue) == multiset(rest) + multiset{x} && y in rest
    ensures y in queue && x in queue && y.id != x.id
  {
    assert y in multiset(rest) && x in multiset(queue) && y in multiset(queue);
    assert IsNext(o, code, lastT, y) && IsNext(o, code, lastT, x);
    assert multiset(queue)[x] <= 1;
    assert y.id == x.id ==> y == x;
  }

  lemma PopKeepsPending(o: Vector, code: seq<nat>, lastT: real, queue: seq<Item>, rest: seq<Item>, x: Item)
    requires Pending(o, code, lastT, queue) && queue != [] && x == queue[0]
    requires multiset(queue) == multiset(rest) + multiset{x} && IsHeap(ItemOrder(), rest)
    ensures x in queue && IsNext(o, code, lastT, x) && x.id < |code|
    ensures Pending(o, Bump(code, x.id), x.t, rest)
    ensures forall y :: y in rest ==> y.id != x.id
  {
    ItemsAreOrdered();
    assert x in queue && IsNext(o, code, lastT, x);
    forall y | y in rest ensures IsNext(o, Bump(code, x.id), x.t, y) && y.id != x.id {
      OthersLeft(o, code, lastT, queue, rest, x, y);
      var i: nat :| i < |queue| && queue[i] == y;
      TopIsFarthest(ItemOrder(), queue, i);
    }
    forall y ensures multiset(rest)[y] <= 1 {
      assert multiset(queue)[y] <= 1;
    }
  }

  lemma PushKeepsPending(o: Vector, code: seq<nat>, t: real, rest: seq<Item>, queue: seq<Item>, x: Item)
    requires Pending(o, code, t, rest) && IsNext(o, code, t, x) && forall y :: y in rest ==> y.id != x.id
    requires multiset(queue) == multiset(rest + [x]) && IsHeap(ItemOrder(), queue)
    ensures Pending(o, code, t, queue)
  {
    assert x !in rest;
    forall y | y in queue ensures IsNext(o, code, t, y) {
      assert y in multiset(queue);
      assert y in rest || y == x;
    }
    forall y ensures multiset(queue)[y] <= 1 {
      assert multiset(rest)[y] <= 1 && multiset(rest)[x] == 0;
    }
  }

  lemma BumpStaysBehind(o: Vector, code: seq<nat>, lastT: real, x: Item)
    requires Behind(o, code, lastT) && NonNegative(o) && IsNext(o, code, lastT, x)
    ensures Behind(o, Bump(code, x.id), x.t)
  {
    JumpsGrow(o, code, x.id);
    forall i | 0 <= i < |o| ensures Bump(code, x.id)[i] as real <= x.t * o[i] + EPS {
      ScaleMono(lastT, x.t, o[i], lastT * o[i], x.t * o[i]);
    }
  }

  lemma ScaleMono(s: real, t: real, x: real, sx: real, tx: real)
    requires s <= t && x >= 0.0 && sx == s * x && tx == t * x
    ensures sx <= tx
  {
    ScaledNonNegative(t - s, x, (t - s) * x);
  }

  /** Filling the queue: every coordinate worth scaling, once. */
  method FillQueue(o: Vector, code: seq<nat>, t: real) returns (queue: seq<Item>)
    requires NonNegative(o) && t >= 0.0 && code == StartCode(o, t)
    ensures Pending(o, code, t, queue)
    ensures forall i :: 0 <= i < |o| && o[i] > EPS ==> Item(NextJump(o, code, i), i) in queue
  {
    queue := [];
    ItemsAreOrdered();
    for i := 0 to |o|
      invariant Pending(o, code, t, queue) && forall y :: y in queue ==> y.id < i
      invariant forall j :: 0 <= j < i && o[j] > EPS ==> Item(NextJump(o, code, j), j) in queue
    {
      if o[i] > EPS {
        var x := Item((code[i] + 1) as real / o[i], i);
        FirstJump(o, code, t, i);
        assert (queue + [x])[..|queue|] == queue;
        ghost var before := queue;
        queue := PushHeap(ItemOrder(), queue + [x]);
        PushKeepsPending(o, code, t, before, queue, x);
        Pushed(before, queue, x);
      }
    }
  }

  lemma Pushed(before: seq<Item>, queue: seq<Item>, x: Item)
    requires multiset(queue) == multiset(before + [x])
    ensures forall y :: y in queue <==> y in before || y == x
  {
    forall y ensures y in queue <==> y in before || y == x {
      assert y in queue <==> y in multiset(queue);
    }
  }

  lemma FirstJump(o: Vector, code: seq<nat>, t: real, i: nat)
    requires NonNegative(o) && t >= 0.0 && code == StartCode(o, t) && i < |o| && o[i] > EPS
    ensures IsNext(o, code, t, Item(NextJump(o, code, i), i))
  {
    var jump := NextJump(o, code, i);
    JumpsGrow(o, code, i);
    if jump < t {
      ScaleMono(jump, t, o[i], jump * o[i], t * o[i]);
    }
  }

  // ----- The search -----

  /** A factor and the code it stands for. */
  datatype Visit = Visit(t: real, code: seq<nat>)

  /** Up to the length of `o`, the cosine between the code and `o`. */
  ghost function Cosine(root: real -> real, o: Vector, code: seq<nat>): real
    requires |code| == |o| > 0 && IsSquareRoot(root)
  {
    DenominatorPositive(code, |code|);
    RootPositive(root, Denominator(code));
    Numerator(code, o) / root(Denominator(code))
  }

  ghost predicate Codes(o: Vector, visits: seq<Visit>) {
    forall j :: 0 <= j < |visits| ==> |visits[j].code| == |o|
  }

  /** The visit of the largest cosine, the first of several. */
  ghost predicate IsBest(root: real -> real, o: Vector, visits: seq<Visit>, k: nat)
    requires |o| > 0 && IsSquareRoot(root) && Codes(o, visits)
  {
    && k < |visits|
    && (forall j :: 0 <= j < k ==> Cosine(root, o, visits[j].code) < Cosine(root, o, visits[k].code))
    && (forall j :: k <= j < |visits| ==> Cosine(root, o, visits[j].code) <= Cosine(root, o, visits[k].code))
  }

  ghost predicate Remembers(root: real -> real, o: Vector, visits: seq<Visit>, t: real, maxIp: real, k: nat)
    requires |o| > 0 && IsSquareRoot(root) && Codes(o, visits)
  {
    if visits == [] then t == 0.0 && maxIp == 0.0
    else IsBest(root, o, visits, k) && t == visits[k].t && maxIp == Cosine(root, o, visits[k].code)
  }

  /** One visit: a later factor than before, one coordinate more, and the code keeps pace with the factor. */
  ghost predicate VisitOk(o: Vector, max: nat, tEnd: real, start: seq<nat>, visits: seq<Visit>, j: nat)
    requires j < |visits|
  {
    && Behind(o, visits[j].code, visits[j].t) && Ahead(o, visits[j].code, visits[j].t, max, tEnd)
    && (j > 0 ==> visits[j - 1].t <= visits[j].t)
    && IsBump(if j == 0 then start else visits[j - 1].code, visits[j].code)
  }

  /** The run so far, ending with `code` at `lastT`. */
  ghost predicate IsTrace(o: Vector, max: nat, tEnd: real, start: seq<nat>, visits: seq<Visit>, lastT: real,
                          code: seq<nat>)
  {
    && (forall j {:trigger VisitOk(o, max, tEnd, start, visits, j)} ::
         0 <= j < |visits| ==> VisitOk(o, max, tEnd, start, visits, j))
    && (if visits == [] then code == start else visits[|visits| - 1] == Visit(lastT, code))
  }

  ghost predicate IsBump(a: seq<nat>, b: seq<nat>) {
    exists i: nat :: i < |a| && b == Bump(a, i)
  }

  lemma TraceGrows(o: Vector, max: nat, tEnd: real, start: seq<nat>, visits: seq<Visit>, lastT: real, code: seq<nat>,
                   x: Item)
    requires IsTrace(o, max, tEnd, start, visits, lastT, code) && |code| == |o| && x.id < |code| && lastT <= x.t
    requires Behind(o, Bump(code, x.id), x.t) && Ahead(o, Bump(code, x.id), x.t, max, tEnd)
    ensures IsTrace(o, max, tEnd, start, visits + [Visit(x.t, Bump(code, x.id))], x.t, Bump(code, x.id))
  {
    var visits' := visits + [Visit(x.t, Bump(code, x.id))];
    assert IsBump(code, Bump(code, x.id));
    forall j | 0 <= j < |visits'| ensures VisitOk(o, max, tEnd, start, visits', j) {
      if j < |visits| {
        assert VisitOk(o, max, tEnd, start, visits, j);
      }
    }
  }

  lemma {:induction false} NumeratorNonNegative(code: seq<nat>, o: Vector, hi: nat)
    requires |code| == |o| && NonNegative(o) && hi <= |o|
    ensures DotRange(Halves(code), o, 0, hi) >= 0.0
  {
    if hi > 0 {
      NumeratorNonNegative(code, o, hi - 1);
      ScaledNonNegative(Halves(code)[hi - 1], o[hi - 1], Halves(code)[hi - 1] * o[hi - 1]);
    }
  }

  lemma QuotientPositive(a: real, b: real)
    requires a > 0.0 && b > 0.0
    ensures a / b > 0.0
  {
  }

  lemma CosinePositive(root: real -> real, o: Vector, code: seq<nat>, i: nat)
    requires |code| == |o| && NonNegative(o) && IsSquareRoot(root) && i < |o| && o[i] > 0.0
    ensures Cosine(root, o, Bump(code, i)) > 0.0
  {
    NumeratorNonNegative(code, o, |o|);
    BumpNumerator(code, o, i, |o|);
    DenominatorPositive(Bump(code, i), |o|);
    RootPositive(root, Denominator(Bump(code, i)));
    QuotientPositive(Numerator(Bump(code, i), o), root(Denominator(Bump(code, i))));
  }

  lemma RememberNext(root: real -> real, o: Vector, visits: seq<Visit>, t: real, maxIp: real, k: nat, v: Visit,
                     ip: real)
    requires |o| > 0 && IsSquareRoot(root) && Codes(o, visits) && Remembers(root, o, visits, t, maxIp, k)
    requires |v.code| == |o| && ip == Cosine(root, o, v.code) && ip > 0.0
    ensures Codes(o, visits + [v])
    ensures ip > maxIp ==> Remembers(root, o, visits + [v], v.t, ip, |visits|)
    ensures ip <= maxIp ==> Remembers(root, o, visits + [v], t, maxIp, k)
  {
  }

  /** What is left to do. */
  function Left(start: seq<nat>, max: nat, code: seq<nat>, n: nat): int
    requires n <= |start| == |code|
  {
    if n == 0 then 0 else Left(start, max, code, n - 1) + Cap(start[n - 1], max) - code[n - 1]
  }

  lemma {:induction false} LeftShrinks(start: seq<nat>, max: nat, code: seq<nat>, i: nat, n: nat)
    requires n <= |start| == |code| && i < |code|
    ensures Left(start, max, Bump(code, i), n) == Left(start, max, code, n) - (if i < n then 1 else 0)
  {
    if n > 0 {
      LeftShrinks(start, max, code, i, n - 1);
    }
  }

  lemma {:induction false} LeftNonNegative(start: seq<nat>, max: nat, code: seq<nat>, n: nat)
    requires n <= |start| == |code| && forall i :: 0 <= i < |code| ==> code[i] <= Cap(start[i], max)
    ensures Left(start, max, code, n) >= 0
  {
    if n > 0 {
      LeftNonNegative(start, max, code, n - 1);
    }
  }

  lemma PopKeepsBounds(start: seq<nat>, max: nat, code: seq<nat>, queue: seq<Item>, rest: seq<Item>, x: Item)
    requires Bounded(start, max, code, queue) && multiset(queue) == multiset(rest) + multiset{x}
    requires forall y :: y in rest ==> y.id != x.id
    ensures x in queue && Bounded(start, max, Bump(code, x.id), rest)
  {
    assert x in multiset(queue);
    forall y | y in rest ensures y in queue {
      assert y in multiset(rest);
      assert y in multiset(queue);
    }
  }

  /** One pop: the top item leaves and the rest is a heap. */
  method PopTop(queue: seq<Item>) returns (x: Item, rest: seq<Item>)
    requires queue != [] && IsHeap(ItemOrder(), queue)
    ensures x == queue[0] && IsHeap(ItemOrder(), rest) && multiset(queue) == multiset(rest) + multiset{x}
  {
    ItemsAreOrdered();
    x := queue[0];
    var popped := PopHeap(ItemOrder(), queue);
    rest := popped[..|popped| - 1];
    assert popped == rest + [x];
  }

  /** The coordinate just increased is queued again unless it is at its limit. */
  method Requeue(o: Vector, code: seq<nat>, max: nat, tEnd: real, rest: seq<Item>, x: Item, ghost start: seq<nat>)
    returns (queue: seq<Item>)
    requires x.id < |o| == |code| && o[x.id] > EPS && code[x.id] > 0 && x.t == code[x.id] as real / o[x.id]
    requires Pending(o, code, x.t, rest) && Bounded(start, max, code, rest) && forall y :: y in rest ==> y.id != x.id
    ensures Pending(o, code, x.t, queue) && Bounded(start, max, code, queue)
    ensures QueuedOrDone(o, code, max, tEnd, queue, x.id) && forall y :: y in rest ==> y in queue
    ensures (exists y :: y in queue && y.id == x.id) <==> code[x.id] < max && NextJump(o, code, x.id) < tEnd
  {
    queue := rest;
    var update := code[x.id];
    if update < max && o[x.id] > EPS {
      var tNext := (update + 1) as real / o[x.id];
      if tNext < tEnd {
        var y := Item(tNext, x.id);
        LaterJump(update, o[x.id]);
        ItemsAreOrdered();
        assert (rest + [y])[..|rest|] == rest;
        queue := PushHeap(ItemOrder(), rest + [y]);
        PushKeepsPending(o, code, x.t, rest, queue, y);
        Pushed(rest, queue, y);
      }
    }
  }

  lemma LaterJump(update: nat, x: real)
    requires x > 0.0
    ensures update as real / x <= (update + 1) as real / x
  {
  }

  /** Everything the loop keeps. */
  ghost predicate Searching(o: Vector, start: seq<nat>, max: nat, tEnd: real, code: seq<nat>, queue: seq<Item>,
                            numerator: real, denominator: real, lastT: real, visits: seq<Visit>)
  {
    && |code| == |o| && Pending(o, code, lastT, queue) && Bounded(start, max, code, queue) && Behind(o, code, lastT)
    && Covered(o, code, max, tEnd, queue)
    && numerator == Numerator(code, o) && denominator == Denominator(code)
    && IsTrace(o, max, tEnd, start, visits, lastT, code)
  }

  /** The top item leaves, its coordinate goes one up, and it is queued again unless it is at its limit. */
  method Step(o: Vector, max: nat, tEnd: real, code: seq<nat>, queue: seq<Item>, ghost start: seq<nat>,
              ghost lastT: real)
    returns (x: Item, code': seq<nat>, queue': seq<Item>)
    requires queue != [] && Pending(o, code, lastT, queue) && Bounded(start, max, code, queue)
    requires Covered(o, code, max, tEnd, queue)
    ensures IsNext(o, code, lastT, x) && code' == Bump(code, x.id) && code[x.id] < Cap(start[x.id], max)
    ensures Pending(o, code', x.t, queue') && Bounded(start, max, code', queue') && Covered(o, code', max, tEnd, queue')
  {
    var rest;
    x, rest := PopTop(queue);
    PopKeepsPending(o, code, lastT, queue, rest, x);
    PopKeepsBounds(start, max, code, queue, rest, x);
    code' := Bump(code, x.id);
    queue' := Requeue(o, code', max, tEnd, rest, x, start);
    forall i: nat | i < |o| && o[i] > EPS ensures QueuedOrDone(o, code', max, tEnd, queue', i) {
      if i != x.id {
        PopKeepsOthers(o, code, max, tEnd, queue, rest, x, i);
      }
    }
  }

  /** One round of the loop. */
  method Advance(o: Vector, max: nat, tEnd: real, code: seq<nat>, queue: seq<Item>, numerator: real, denominator: real,
                 ghost start: seq<nat>, ghost lastT: real, ghost visits: seq<Visit>)
    returns (x: Item, code': seq<nat>, queue': seq<Item>, numerator': real, denominator': real)
    requires NonNegative(o) && queue != []
    requires Searching(o, start, max, tEnd, code, queue, numerator, denominator, lastT, visits)
    ensures IsNext(o, code, lastT, x) && code' == Bump(code, x.id)
    ensures Searching(o, start, max, tEnd, code', queue', numerator', denominator', x.t, visits + [Visit(x.t, code')])
    ensures code[x.id] < Cap(start[x.id], max)
  {
    x, code', queue' := Step(o, max, tEnd, code, queue, start, lastT);
    BumpStaysBehind(o, code, lastT, x);
    CoveredIsAhead(o, code', x.t, max, tEnd, queue');
    TraceGrows(o, max, tEnd, start, visits, lastT, code, x);
    BumpNumerator(code, o, x.id, |o|);
    BumpDenominator(code, x.id, |o|);
    denominator' := denominator + 2.0 * code'[x.id] as real;
    numerator' := numerator + o[x.id];
  }

  /** What the search promises about its factor and the codes it went through. */
  ghost predicate Found(root: real -> real, o: Vector, exBits: nat, run: Run, t: real)
    requires |o| > 0 && IsSquareRoot(root)
  {
    && |run.start| == |run.code| == |o| && Codes(o, run.visits)
    && IsTrace(o, Pow2(exBits) - 1, run.tEnd, run.start, run.visits, run.lastT, run.code)
    && (exists k: nat :: IsBest(root, o, run.visits, k) && t == run.visits[k].t)
    && forall i :: 0 <= i < |o| ==> run.start[i] <= run.code[i] <= run.start[i] + Pow2(exBits)
  }

  /** A run of the search: where it started and would end, the visits, and the last factor and code. */
  datatype Run = Run(tEnd: real, start: seq<nat>, visits: seq<Visit>, lastT: real, code: seq<nat>)

  method CurrentCosine(root: real -> real, ghost o: Vector, ghost code: seq<nat>, numerator: real, denominator: real)
    returns (ip: real)
    requires |code| == |o| > 0 && IsSquareRoot(root)
    requires numerator == Numerator(code, o) && denominator == Denominator(code)
    ensures ip == Cosine(root, o, code)
  {
    DenominatorPositive(code, |code|);
    RootPositive(root, denominator);
    ip := numerator / root(denominator);
  }

  method Search(root: real -> real, o: Vector, exBits: nat, tEnd: real, start: seq<nat>, queue0: seq<Item>,
                numerator0: real, denominator0: real, ghost tStart: real)
    returns (t: real, ghost run: Run)
    requires |o| > 0 && IsSquareRoot(root) && NonNegative(o) && queue0 != []
    requires Searching(o, start, Pow2(exBits) - 1, tEnd, start, queue0, numerator0, denominator0, tStart, [])
    ensures Found(root, o, exBits, run, t) && run.tEnd == tEnd && run.start == start
  {
    var max := Pow2(exBits) - 1;
    var code, queue, numerator, denominator := start, queue0, numerator0, denominator0;
    var maxIp := 0.0;
    ghost var k: nat := 0;
    t := 0.0;
    ghost var visits, lastT := [], tStart;
    while queue != []
      invariant Searching(o, start, max, tEnd, code, queue, numerator, denominator, lastT, visits)
      invariant Codes(o, visits)
      invariant Remembers(root, o, visits, t, maxIp, k)
      invariant queue == [] ==> visits != []
      decreases Left(start, max, code, |code|)
    {
      ghost var before := code;
      var x;
      ghost var earlier := visits;
      x, code, queue, numerator, denominator :=
        Advance(o, max, tEnd, code, queue, numerator, denominator, start, lastT, visits);
      lastT, visits := x.t, visits + [Visit(x.t, code)];
      var ip := CurrentCosine(root, o, code, numerator, denominator);
      CosinePositive(root, o, before, x.id);
      RememberNext(root, o, earlier, t, maxIp, k, Visit(x.t, code), ip);
      if ip > maxIp {
        maxIp, t, k := ip, x.t, |earlier|;
      }
      LeftShrinks(start, max, before, x.id, |before|);
      LeftNonNegative(start, max, code, |code|);
    }
    run := Run(tEnd, start, visits, lastT, code);
  }

  /** The search ends ten steps after the largest coordinate is full. */
  ghost predicate EndsAt(o: Vector, exBits: nat, tEnd: real) {
    exists m :: m in o && m > 0.0 && (forall i :: 0 <= i < |o| ==> o[i] <= m) &&
                tEnd == ((Pow2(exBits) - 1) as real + EXTRA_STEPS) / m
  }

  /** The code is the vector scaled by `t` and rounded down. */
  ghost predicate RoundedDown(o: Vector, t: real, code: seq<nat>) {
    |code| == |o| && forall i :: 0 <= i < |o| ==> code[i] as real <= t * o[i] + EPS < code[i] as real + 1.0
  }

  /** The search starts with the code at a fixed fraction of its end. */
  ghost predicate StartsAt(o: Vector, exBits: nat, run: Run) {
    exBits < |TIGHT_START| && exists t :: RoundedDown(o, t, run.start) && t == run.tEnd * TIGHT_START[exBits]
  }

  lemma StartIsRoundedDown(o: Vector, t: real)
    requires NonNegative(o) && t >= 0.0
    ensures RoundedDown(o, t, StartCode(o, t))
  {
    forall i | 0 <= i < |o| ensures StartCode(o, t)[i] as real <= t * o[i] + EPS < StartCode(o, t)[i] as real + 1.0 {
      assert StartCode(o, t)[i] == Truncated(t, o[i]);
    }
  }

  /** Zero for a vector of nothing worth scaling, otherwise what the search found. */
  ghost predicate IsBestFactor(root: real -> real, o: Vector, exBits: nat, run: Run, t: real)
    requires |o| > 0 && IsSquareRoot(root)
  {
    if forall i :: 0 <= i < |o| ==> o[i] <= EPS then t == 0.0
    else Found(root, o, exBits, run, t) && EndsAt(o, exBits, run.tEnd) && StartsAt(o, exBits, run)
  }

  /** `best_rescale_factor`. */
  method BestRescaleFactor(root: real -> real, o: Vector, exBits: nat) returns (t: real, ghost run: Run)
    requires |o| > 0 && NonNegative(o) && exBits <= 8 && IsSquareRoot(root)
    ensures IsBestFactor(root, o, exBits, run, t)
  {
    run := Run(0.0, [], [], 0.0, []);
    var maxO := MaxElement(o);
    if maxO <= EPS {
      return 0.0, run;
    }
    var tEnd := ((Pow2(exBits) - 1) as real + EXTRA_STEPS) / maxO;
    QuotientPositive((Pow2(exBits) - 1) as real + EXTRA_STEPS, maxO);
    var tStart := tEnd * TIGHT_START[exBits];
    StartNonNegative(tEnd, exBits);
    t, run := SearchFrom(root, o, exBits, tStart, tEnd);
  }

  /** The first two loops and the search. */
  method SearchFrom(root: real -> real, o: Vector, exBits: nat, tStart: real, tEnd: real)
    returns (t: real, ghost run: Run)
    requires |o| > 0 && NonNegative(o) && IsSquareRoot(root) && tStart >= 0.0
    requires exists i :: 0 <= i < |o| && o[i] > EPS
    ensures Found(root, o, exBits, run, t) && run.tEnd == tEnd && RoundedDown(o, tStart, run.start)
  {
    var codes, numerator, denominator := Start(o, tStart);
    var queue := FillQueue(o, codes, tStart);
    StartIsSearching(o, Pow2(exBits) - 1, tEnd, codes, queue, numerator, denominator, tStart);
    StartIsRoundedDown(o, tStart);
    t, run := Search(root, o, exBits, tEnd, codes, queue, numerator, denominator, tStart);
  }

  lemma StartNonNegative(tEnd: real, exBits: nat)
    requires tEnd > 0.0 && exBits <= 8
    ensures tEnd * TIGHT_START[exBits] >= 0.0
  {
    ScaledNonNegative(tEnd, TIGHT_START[exBits], tEnd * TIGHT_START[exBits]);
  }

  lemma StartIsSearching(o: Vector, max: nat, tEnd: real, code: seq<nat>, queue: seq<Item>,
                         numerator: real, denominator: real, t: real)
    requires NonNegative(o) && t >= 0.0 && code == StartCode(o, t) && Pending(o, code, t, queue)
    requires numerator == Numerator(code, o) && denominator == Denominator(code)
    requires forall i :: 0 <= i < |o| && o[i] > EPS ==> Item(NextJump(o, code, i), i) in queue
    ensures Searching(o, code, max, tEnd, code, queue, numerator, denominator, t, [])
  {
    assert Covered(o, code, max, tEnd, queue) by {
      forall i: nat | i < |o| && o[i] > EPS ensures QueuedOrDone(o, code, max, tEnd, queue, i) {
      }
    }
  }

  // ----- The code written at the factor found -----

  function Min(a: nat, b: nat): nat { if a < b then a else b }

  /** A coordinate truncated at the factor of a visit is the visited one, cut at the largest code, unless the
      factor is within the rounding margin of the coordinate's next jump: then it may be one more. */
  ghost predicate Agrees(t: real, x: real, visited: nat, max: nat) {
    var code := Quantised(t, x, max);
    code == Min(visited, max) || (code == visited + 1 && visited as real + 1.0 - EPS <= t * x <= visited as real + 1.0)
  }

  lemma VisitedIsReached(t: real, x: real, tx: real, visited: nat, max: nat)
    requires tx == t * x && visited as real <= tx + EPS
    ensures Min(visited, max) <= Quantised(t, x, max)
  {
  }

  lemma TruncatedAgrees(t: real, x: real, tx: real, visited: nat, max: nat)
    requires tx == t * x && visited as real <= tx + EPS
    ensures Agrees(t, x, visited, max) <==> visited >= max || tx <= (visited + 1) as real
  {
  }

  /** The code at a visit's factor against the visited code. It is never below it. On a coordinate worth scaling
      they agree if and only if the coordinate was full or not yet due, so always up to the end of the search. */
  lemma TruncationAgrees(o: Vector, max: nat, tEnd: real, start: seq<nat>, visits: seq<Visit>, j: nat, i: nat)
    requires NonNegative(o) && j < |visits| && VisitOk(o, max, tEnd, start, visits, j) && i < |o|
    ensures Min(visits[j].code[i], max) <= Quantised(visits[j].t, o[i], max)
    ensures o[i] > EPS ==> (Agrees(visits[j].t, o[i], visits[j].code[i], max) <==>
                            visits[j].code[i] >= max || visits[j].t <= NextJump(o, visits[j].code, i))
    ensures o[i] > EPS && visits[j].t <= tEnd ==> Agrees(visits[j].t, o[i], visits[j].code[i], max)
  {
    var t, code := visits[j].t, visits[j].code;
    VisitedIsReached(t, o[i], t * o[i], code[i], max);
    if o[i] > EPS {
      assert JumpAfter(o, code, t, max, tEnd, i);
      DueByProduct(t, NextJump(o, code, i), o[i], t * o[i], (code[i] + 1) as real);
      TruncatedAgrees(t, o[i], t * o[i], code[i], max);
    }
  }

  lemma DueByProduct(t: real, next: real, x: real, tx: real, c: real)
    requires x > 0.0 && tx == t * x && next == c / x
    ensures t <= next <==> tx <= c
  {
    assert next * x == c;
    if t <= next {
      ScaleMono(t, next, x, tx, c);
    } else {
      ProductPositive(t - next, x, (t - next) * x);
    }
  }

  ghost predicate CodeAgrees(o: Vector, max: nat, tEnd: real, v: Visit) {
    |v.code| == |o| && forall i :: 0 <= i < |o| ==>
      && Min(v.code[i], max) <= Quantised(v.t, o[i], max)
      && (o[i] > EPS ==> (Agrees(v.t, o[i], v.code[i], max) <==> v.code[i] >= max || v.t <= NextJump(o, v.code, i)))
      && (o[i] > EPS && v.t <= tEnd ==> Agrees(v.t, o[i], v.code[i], max))
  }

  /** The code written at the factor found is, in this sense, the visited code of largest cosine. */
  lemma BestCodeAgrees(root: real -> real, o: Vector, exBits: nat, run: Run, t: real)
    requires |o| > 0 && IsSquareRoot(root) && NonNegative(o) && Found(root, o, exBits, run, t)
    ensures exists k: nat :: IsBest(root, o, run.visits, k) && t == run.visits[k].t &&
                             CodeAgrees(o, Pow2(exBits) - 1, run.tEnd, run.visits[k])
  {
    var k: nat :| IsBest(root, o, run.visits, k) && t == run.visits[k].t;
    var max := Pow2(exBits) - 1;
    assert VisitOk(o, max, run.tEnd, run.start, run.visits, k);
    forall i | 0 <= i < |o|
      ensures Min(run.visits[k].code[i], max) <= Quantised(t, o[i], max)
      ensures o[i] > EPS ==> (Agrees(t, o[i], run.visits[k].code[i], max) <==>
                              run.visits[k].code[i] >= max || t <= NextJump(o, run.visits[k].code, i))
      ensures o[i] > EPS && t <= run.tEnd ==> Agrees(t, o[i], run.visits[k].code[i], max)
    {
      TruncationAgrees(o, max, run.tEnd, run.start, run.visits, k, i);
    }
  }
}
