/** The heap algorithms of the C++ library over a vector, with any strict total order as comparator,
    and the bounded heap built on them (vexdb_duckdb/include/vex_filtered_search.hpp).
 */
module Heaps {

  /** The laws of a strict total order for three values. */
  predicate Law<T(==)>(less: (T, T) -> bool, a: T, b: T, c: T) {
    && !less(a, a) && !(less(a, b) && less(b, a))
    && (less(a, b) && less(b, c) ==> less(a, c))
    && (a != b ==> less(a, b) || less(b, a))
  }

  ghost predicate TotalOrder<T(!new)>(less: (T, T) -> bool) {
    forall a, b, c {:trigger Law(less, a, b, c)} :: Law(less, a, b, c)
  }

  /** `a` may stand before `b`. */
  predicate AtMost<T(!new)>(less: (T, T) -> bool, a: T, b: T) {
    !less(b, a)
  }

  lemma AtMostIsTransitive<T(!new)>(less: (T, T) -> bool, a: T, b: T, c: T)
    requires TotalOrder(less)
    requires AtMost(less, a, b) && AtMost(less, b, c)
    ensures AtMost(less, a, c)
  {
    assert Law(less, a, b, c);
    assert Law(less, c, a, b);
  }

  // ----- Sorting, as the reference -----

  ghost predicate Sorted<T(!new)>(less: (T, T) -> bool, s: seq<T>) {
    forall i, j :: 0 <= i < j < |s| ==> AtMost(less, s[i], s[j])
  }

  ghost function Insert<T(!new)>(less: (T, T) -> bool, e: T, s: seq<T>): seq<T> {
    if s == [] then [e]
    else if less(e, s[0]) then [e] + s
    else [s[0]] + Insert(less, e, s[1..])
  }

  ghost function Sort<T(!new)>(less: (T, T) -> bool, s: seq<T>): seq<T> {
    if s == [] then [] else Insert(less, s[0], Sort(less, s[1..]))
  }

  lemma {:induction false} InsertSorts<T(!new)>(less: (T, T) -> bool, e: T, s: seq<T>)
    requires TotalOrder(less)
    requires Sorted(less, s)
    ensures Sorted(less, Insert(less, e, s))
    ensures multiset(Insert(less, e, s)) == multiset(s) + multiset{e}
  {
    if s == [] {
    } else if less(e, s[0]) {
      assert Law(less, e, s[0], e);
      FirstIsLeast(less, s, s[0]);
      ConsSorted(less, e, s);
    } else {
      var rest := Insert(less, e, s[1..]);
      InsertSorts(less, e, s[1..]);
      assert s == [s[0]] + s[1..];
      assert rest[0] == e || rest[0] == s[1];
      ConsSorted(less, s[0], rest);
    }
  }

  lemma ConsSorted<T(!new)>(less: (T, T) -> bool, e: T, s: seq<T>)
    requires TotalOrder(less)
    requires Sorted(less, s) && (s != [] ==> AtMost(less, e, s[0]))
    ensures Sorted(less, [e] + s)
  {
    forall j | 0 < j < |s| ensures AtMost(less, e, s[j]) {
      AtMostIsTransitive(less, e, s[0], s[j]);
    }
  }

  lemma {:induction false} SortSorts<T(!new)>(less: (T, T) -> bool, s: seq<T>)
    requires TotalOrder(less)
    ensures Sorted(less, Sort(less, s)) && multiset(Sort(less, s)) == multiset(s)
  {
    if s != [] {
      SortSorts(less, s[1..]);
      InsertSorts(less, s[0], Sort(less, s[1..]));
      assert s == [s[0]] + s[1..];
    }
  }

  lemma SortLength<T(!new)>(less: (T, T) -> bool, s: seq<T>)
    requires TotalOrder(less)
    ensures |Sort(less, s)| == |s|
  {
    SortSorts(less, s);
    assert |multiset(Sort(less, s))| == |Sort(less, s)| && |multiset(s)| == |s|;
  }

  lemma FirstIsLeast<T(!new)>(less: (T, T) -> bool, s: seq<T>, e: T)
    requires TotalOrder(less)
    requires Sorted(less, s) && e in s
    ensures AtMost(less, s[0], e)
  {
    assert Law(less, e, e, e);
  }

  /** Entries can be sorted in one way only. */
  lemma {:induction false} SortedIsUnique<T(!new)>(less: (T, T) -> bool, s: seq<T>, s': seq<T>)
    requires TotalOrder(less)
    requires Sorted(less, s) && Sorted(less, s') && multiset(s) == multiset(s')
    ensures s == s'
  {
    if s == [] {
      assert |multiset(s')| == |s'|;
    } else {
      assert s[0] in multiset(s') && |multiset(s')| == |s'|;
      FirstIsLeast(less, s', s[0]);
      assert s'[0] in multiset(s);
      FirstIsLeast(less, s, s'[0]);
      assert Law(less, s[0], s'[0], s[0]);
      assert s == [s[0]] + s[1..] && s' == [s'[0]] + s'[1..];
      assert multiset(s[1..]) == multiset(s) - multiset{s[0]} == multiset(s'[1..]);
      SortedIsUnique(less, s[1..], s'[1..]);
    }
  }

  // ----- Heaps -----

  function Parent(i: int): int
    requires i > 0
  {
    (i - 1) / 2
  }

  function Swap<T(!new)>(h: seq<T>, i: nat, j: nat): seq<T>
    requires i < |h| && j < |h|
  {
    h[i := h[j]][j := h[i]]
  }

  /** std::is_heap: no entry is farther than its parent. */
  ghost predicate IsHeap<T(!new)>(less: (T, T) -> bool, h: seq<T>) {
    forall i :: 0 < i < |h| ==> AtMost(less, h[i], h[Parent(i)])
  }

  lemma {:induction false} TopIsFarthest<T(!new)>(less: (T, T) -> bool, h: seq<T>, i: nat)
    requires TotalOrder(less)
    requires IsHeap(less, h) && i < |h|
    ensures AtMost(less, h[i], h[0])
  {
    assert Law(less, h[0], h[0], h[0]);
    if i > 0 {
      TopIsFarthest(less, h, Parent(i));
      AtMostIsTransitive(less, h[i], h[Parent(i)], h[0]);
    }
  }

  /** A heap but for the entry at `hole`, which may be farther than its parent. */
  ghost predicate RisingHeap<T(!new)>(less: (T, T) -> bool, h: seq<T>, hole: nat) {
    && hole < |h|
    && (forall i :: 0 < i < |h| && i != hole ==> AtMost(less, h[i], h[Parent(i)]))
    && (hole > 0 ==> forall i :: 0 < i < |h| && Parent(i) == hole ==> AtMost(less, h[i], h[Parent(hole)]))
  }

  lemma Rises<T(!new)>(less: (T, T) -> bool, h: seq<T>, hole: nat)
    requires TotalOrder(less)
    requires RisingHeap(less, h, hole) && hole > 0 && less(h[Parent(hole)], h[hole])
    ensures RisingHeap(less, Swap(h, Parent(hole), hole), Parent(hole))
  {
    var p, r := Parent(hole), Swap(h, Parent(hole), hole);
    assert Law(less, h[p], h[hole], h[p]);
    forall i | 0 < i < |r| && i != p ensures AtMost(less, r[i], r[Parent(i)]) {
      if i != hole && Parent(i) == p {
        AtMostIsTransitive(less, h[i], h[p], h[hole]);
      }
    }
    forall i | 0 < i < |r| && p > 0 && Parent(i) == p ensures AtMost(less, r[i], r[Parent(p)]) {
      if i != hole {
        AtMostIsTransitive(less, h[i], h[p], h[Parent(p)]);
      }
    }
  }

  /** std::push_heap: lets the last entry rise. */
  method PushHeap<T(!new)>(less: (T, T) -> bool, h0: seq<T>) returns (h: seq<T>)
    requires TotalOrder(less)
    requires h0 != [] && IsHeap(less, h0[..|h0| - 1])
    ensures IsHeap(less, h) && multiset(h) == multiset(h0) && |h| == |h0|
  {
    h := h0;
    var hole: nat := |h| - 1;
    assert RisingHeap(less, h, hole) by {
      forall i | 0 < i < |h0| - 1 ensures AtMost(less, h0[i], h0[Parent(i)]) {
        assert h0[..|h0| - 1][i] == h0[i] && h0[..|h0| - 1][Parent(i)] == h0[Parent(i)];
      }
    }
    while hole > 0 && less(h[Parent(hole)], h[hole])
      invariant |h| == |h0| && multiset(h) == multiset(h0) && RisingHeap(less, h, hole)
    {
      Rises(less, h, hole);
      h, hole := Swap(h, Parent(hole), hole), Parent(hole);
    }
  }

  /** A heap but for the entry at `hole`, which may be closer than its children. */
  ghost predicate SinkingHeap<T(!new)>(less: (T, T) -> bool, h: seq<T>, hole: nat) {
    && hole < |h|
    && (forall i :: 0 < i < |h| && Parent(i) != hole ==> AtMost(less, h[i], h[Parent(i)]))
    && (hole > 0 ==> forall i :: 0 < i < |h| && Parent(i) == hole ==> AtMost(less, h[i], h[Parent(hole)]))
  }

  /** The farther of the children of `i`, or -1. */
  method FartherChild<T(!new)>(less: (T, T) -> bool, h: seq<T>, i: nat) returns (c: int)
    requires TotalOrder(less)
    requires i < |h|
    ensures c == -1 <==> 2 * i + 1 >= |h|
    ensures c != -1 ==> 0 < c < |h| && Parent(c) == i
    ensures c != -1 ==> forall k :: 0 < k < |h| && Parent(k) == i ==> AtMost(less, h[k], h[c])
  {
    c := -1;
    if 2 * i + 1 < |h| {
      c := 2 * i + 1;
      assert Law(less, h[c], h[c], h[c]);
      if c + 1 < |h| {
        assert Law(less, h[c], h[c + 1], h[c + 1]) && Law(less, h[c + 1], h[c], h[c]);
        if less(h[c], h[c + 1]) {
          c := c + 1;
        }
      }
      forall k | 0 < k < |h| && Parent(k) == i ensures k == 2 * i + 1 || k == 2 * i + 2 {
      }
    }
  }

  lemma Sinks<T(!new)>(less: (T, T) -> bool, h: seq<T>, hole: nat, c: nat)
    requires TotalOrder(less)
    requires SinkingHeap(less, h, hole) && 0 < c < |h| && Parent(c) == hole
    requires forall k :: 0 < k < |h| && Parent(k) == hole ==> AtMost(less, h[k], h[c])
    requires less(h[hole], h[c])
    ensures SinkingHeap(less, Swap(h, hole, c), c)
  {
    var r := Swap(h, hole, c);
    assert Law(less, h[hole], h[c], h[hole]);
    forall i | 0 < i < |r| && Parent(i) != c ensures AtMost(less, r[i], r[Parent(i)]) {
      if i == c {
      } else if Parent(i) == hole {
      } else if i == hole {
      }
    }
  }

  lemma SinkEnds<T(!new)>(less: (T, T) -> bool, h: seq<T>, hole: nat)
    requires TotalOrder(less)
    requires SinkingHeap(less, h, hole)
    requires forall k :: 0 < k < |h| && Parent(k) == hole ==> AtMost(less, h[k], h[hole])
    ensures IsHeap(less, h)
  {
  }

  method SiftDown<T(!new)>(less: (T, T) -> bool, h0: seq<T>) returns (h: seq<T>)
    requires TotalOrder(less)
    requires h0 != [] && SinkingHeap(less, h0, 0)
    ensures IsHeap(less, h) && multiset(h) == multiset(h0) && |h| == |h0|
  {
    h := h0;
    var hole := 0;
    while true
      invariant |h| == |h0| && multiset(h) == multiset(h0) && SinkingHeap(less, h, hole)
      decreases |h| - hole
    {
      var c := FartherChild(less, h, hole);
      if c == -1 || !less(h[hole], h[c]) {
        forall k | 0 < k < |h| && Parent(k) == hole ensures AtMost(less, h[k], h[hole]) {
          AtMostIsTransitive(less, h[k], h[c], h[hole]);
        }
        SinkEnds(less, h, hole);
        return;
      }
      Sinks(less, h, hole, c);
      h, hole := Swap(h, hole, c), c;
    }
  }

  /** std::pop_heap: the farthest entry goes to the end and the rest is a heap again. */
  method PopHeap<T(!new)>(less: (T, T) -> bool, h0: seq<T>) returns (h: seq<T>)
    requires TotalOrder(less)
    requires h0 != [] && IsHeap(less, h0)
    ensures |h| == |h0| && multiset(h) == multiset(h0)
    ensures h[|h| - 1] == h0[0] && IsHeap(less, h[..|h| - 1])
  {
    var last := |h0| - 1;
    if last == 0 {
      return h0;
    }
    var front := h0[..last][0 := h0[last]];
    assert SinkingHeap(less, front, 0);
    var sunk := SiftDown(less, front);
    h := sunk + [h0[0]];
    assert h[..last] == sunk;
    assert h0 == h0[..last] + [h0[last]] && h0[..last] == [h0[0]] + h0[1..last] && front == [h0[last]] + h0[1..last];
  }

  /** std::sort_heap: pops until nothing is left. */
  method SortHeap<T(!new)>(less: (T, T) -> bool, h: seq<T>) returns (sorted: seq<T>)
    requires TotalOrder(less)
    requires IsHeap(less, h)
    ensures Sorted(less, sorted) && multiset(sorted) == multiset(h)
  {
    sorted := [];
    var front := h;
    while front != []
      invariant IsHeap(less, front) && Sorted(less, sorted) && multiset(front) + multiset(sorted) == multiset(h)
      invariant forall a, b :: a in front && b in sorted ==> AtMost(less, a, b)
      decreases |front|
    {
      var popped := PopHeap(less, front);
      var last := |front| - 1;
      PopKeepsBound(less, front, popped, sorted);
      front, sorted := popped[..last], [popped[last]] + sorted;
    }
  }

  lemma PopKeepsBound<T(!new)>(less: (T, T) -> bool, front: seq<T>, popped: seq<T>, sorted: seq<T>)
    requires TotalOrder(less)
    requires front != [] && IsHeap(less, front) && |popped| == |front| && multiset(popped) == multiset(front)
    requires popped[|popped| - 1] == front[0] && Sorted(less, sorted)
    requires forall a, b :: a in front && b in sorted ==> AtMost(less, a, b)
    ensures Sorted(less, [front[0]] + sorted)
    ensures multiset(popped[..|popped| - 1]) + multiset([front[0]] + sorted) == multiset(front) + multiset(sorted)
    ensures forall a, b :: a in popped[..|popped| - 1] && b in [front[0]] + sorted ==> AtMost(less, a, b)
  {
    assert popped == popped[..|popped| - 1] + [front[0]];
    forall a | a in popped[..|popped| - 1] ensures a in front && AtMost(less, a, front[0]) {
      assert a in multiset(popped);
      var i: nat :| i < |front| && front[i] == a;
      TopIsFarthest(less, front, i);
    }
  }

  // ----- The bounded heap -----

  /** The heap holds the closest entries met, the dropped ones are no closer than any of them. */
  ghost predicate Keeps<T(!new)>(less: (T, T) -> bool, k: nat, met: seq<T>, heap: seq<T>, dropped: seq<T>) {
    && IsHeap(less, heap) && |heap| == (if |met| < k then |met| else k)
    && multiset(heap) + multiset(dropped) == multiset(met)
    && forall d, e :: d in dropped && e in heap ==> AtMost(less, e, d)
  }

  /** One entry is offered to the heap. */
  method Offer<T(!new)>(less: (T, T) -> bool, k: nat, heap0: seq<T>, e: T, ghost met: seq<T>, ghost dropped0: seq<T>)
    returns (heap: seq<T>, ghost dropped: seq<T>)
    requires TotalOrder(less)
    requires k > 0 && Keeps(less, k, met, heap0, dropped0)
    ensures Keeps(less, k, met + [e], heap, dropped)
  {
    dropped := dropped0;
    if |heap0| < k {
      assert (heap0 + [e])[..|heap0|] == heap0;
      NothingDropped(met, heap0, dropped0);
      heap := PushHeap(less, heap0 + [e]);
    } else if less(e, heap0[0]) {
      var popped := PopHeap(less, heap0);
      var last := |popped| - 1;
      assert popped[last := e][..last] == popped[..last];
      heap := PushHeap(less, popped[last := e]);
      dropped := dropped0 + [heap0[0]];
      Replaces(less, heap0, popped, heap, e, dropped0);
    } else {
      heap := heap0;
      dropped := dropped0 + [e];
      FartherThanAll(less, heap0, e);
    }
  }

  lemma FartherThanAll<T(!new)>(less: (T, T) -> bool, heap: seq<T>, e: T)
    requires TotalOrder(less)
    requires heap != [] && IsHeap(less, heap) && AtMost(less, heap[0], e)
    ensures forall x :: x in heap ==> AtMost(less, x, e)
  {
    forall x | x in heap ensures AtMost(less, x, e) {
      var i: nat :| i < |heap| && heap[i] == x;
      TopIsFarthest(less, heap, i);
      AtMostIsTransitive(less, x, heap[0], e);
    }
  }

  lemma NothingDropped<T(!new)>(met: seq<T>, heap: seq<T>, dropped: seq<T>)
    requires multiset(heap) + multiset(dropped) == multiset(met) && |heap| == |met|
    ensures dropped == []
  {
    assert |multiset(heap) + multiset(dropped)| == |heap| + |dropped|;
    assert |multiset(met)| == |met|;
  }

  lemma Replaces<T(!new)>(less: (T, T) -> bool, heap0: seq<T>, popped: seq<T>, heap: seq<T>, e: T, dropped: seq<T>)
    requires TotalOrder(less)
    requires heap0 != [] && IsHeap(less, heap0) && |popped| == |heap0| && multiset(popped) == multiset(heap0)
    requires popped[|popped| - 1] == heap0[0] && multiset(heap) == multiset(popped[|popped| - 1 := e])
    requires less(e, heap0[0])
    requires forall d, x :: d in dropped && x in heap0 ==> AtMost(less, x, d)
    ensures multiset(heap) + multiset{heap0[0]} == multiset(heap0) + multiset{e}
    ensures forall d, x :: d in dropped + [heap0[0]] && x in heap ==> AtMost(less, x, d)
  {
    var last := |popped| - 1;
    assert popped == popped[..last] + [heap0[0]] && popped[last := e] == popped[..last] + [e];
    assert Law(less, e, heap0[0], e);
    forall x | x in heap ensures AtMost(less, x, heap0[0]) && forall d :: d in dropped ==> AtMost(less, x, d) {
      assert x in multiset(heap);
      assert heap0[0] in heap0;
      if x == e {
        forall d | d in dropped ensures AtMost(less, x, d) {
          AtMostIsTransitive(less, e, heap0[0], d);
        }
      } else {
        assert x in multiset(popped);
        var i: nat :| i < |heap0| && heap0[i] == x;
        TopIsFarthest(less, heap0, i);
      }
    }
  }

  /** What the heap keeps, once sorted, is the front of everything met, sorted. */
  lemma KeptIsTopK<T(!new)>(less: (T, T) -> bool, k: nat, met: seq<T>, heap: seq<T>, dropped: seq<T>, sorted: seq<T>)
    requires TotalOrder(less)
    requires Keeps(less, k, met, heap, dropped)
    requires Sorted(less, sorted) && multiset(sorted) == multiset(heap)
    ensures |Sort(less, met)| == |met| && |sorted| <= |met| && |sorted| == |heap|
    ensures sorted == Sort(less, met)[..|sorted|]
  {
    SortSorts(less, met);
    SortSorts(less, dropped);
    assert |multiset(Sort(less, met))| == |Sort(less, met)| && |multiset(met)| == |met|;
    assert |multiset(sorted)| == |sorted| && |multiset(heap)| == |heap|;
    var rest := Sort(less, dropped);
    forall i, j | 0 <= i < |sorted| && 0 <= j < |rest| ensures AtMost(less, sorted[i], rest[j]) {
      assert sorted[i] in multiset(sorted) && rest[j] in multiset(rest);
    }
    SortedIsUnique(less, sorted + rest, Sort(less, met));
  }
}
