/** Filtered exact top-k (vexdb_duckdb/include/vex_filtered_search.hpp).

    Allowed rows are scored batch by batch, and a bounded heap keeps the k closest entries met so
    far. Proved: the rows returned are the first k of all scored rows sorted by `Closer`, and what that
    means for the fetched scores.
 */
module FilteredSearch {
  import opened Heaps
  import opened Scores

  /** A scored row; a NULL distance carries no score. */
  datatype Entry = Null(row: int) | Scored(score: Score, row: int)

  // ----- The order -----

  /** `a` comes before `b`: NULLs last, NaN after numbers when ascending and before them otherwise. */
  predicate Closer(ascending: bool, a: Entry, b: Entry) {
    if a.Null? != b.Null? then !a.Null?
    else if a.Scored? && (a.score == NotANumber) != (b.score == NotANumber) then
      (if ascending then a.score != NotANumber else a.score == NotANumber)
    else if a.Scored? && a.score != b.score && a.score != NotANumber then
      (if ascending then Greater(b.score, a.score) else Greater(a.score, b.score))
    else a.row < b.row
  }

  function Order(ascending: bool): (Entry, Entry) -> bool {
    (a, b) => Closer(ascending, a, b)
  }

  /** `Closer` is a strict total order, for both directions and any mix of NULL, NaN and infinity. */
  lemma CloserIsTotalOrder(ascending: bool)
    ensures TotalOrder(Order(ascending))
  {
    forall a, b, c ensures Law(Order(ascending), a, b, c) {
    }
  }

  // ----- Batches -----

  // Row ids from here on belong to the transaction's local storage.
  const MAX_ROW_ID: int := 36028797018960000
  const STANDARD_VECTOR_SIZE: nat := 2048

  predicate IsLocal(row: int) { row >= MAX_ROW_ID }

  /** The next run of rows: at most one vector long, all of one storage kind, and cut only for that. */
  method NextBatch(allowed: seq<int>, off: nat) returns (count: nat, local: bool)
    requires off < |allowed|
    ensures 1 <= count <= STANDARD_VECTOR_SIZE && off + count <= |allowed|
    ensures forall i :: off <= i < off + count ==> IsLocal(allowed[i]) == local
    ensures count == STANDARD_VECTOR_SIZE || off + count == |allowed| || IsLocal(allowed[off + count]) != local
  {
    count := if STANDARD_VECTOR_SIZE < |allowed| - off then STANDARD_VECTOR_SIZE else |allowed| - off;
    local := IsLocal(allowed[off]);
    var i := 1;
    while i < count
      invariant 1 <= i <= count && forall j :: off <= j < off + i ==> IsLocal(allowed[j]) == local
    {
      if IsLocal(allowed[off + i]) != local {
        count := i;
        return;
      }
      i := i + 1;
    }
  }

  datatype Fetched = Invalid | Value(score: Score)

  type Fetch = int -> Fetched

  function EntryOf(row: int, fetched: Fetched): Entry {
    if fetched.Invalid? then Null(row) else Scored(fetched.score, row)
  }

  /** Each row scored from the storage that holds it. */
  function Entries(allowed: seq<int>, fetchLocal: Fetch, fetchTable: Fetch): seq<Entry> {
    seq(|allowed|, i requires 0 <= i < |allowed| =>
      EntryOf(allowed[i], if IsLocal(allowed[i]) then fetchLocal(allowed[i]) else fetchTable(allowed[i])))
  }

  function Distance(e: Entry): Score {
    if e.Null? then Finite(0.0) else e.score
  }

  method ScoreBatch(ascending: bool, k: nat, allowed: seq<int>, fetchLocal: Fetch, fetchTable: Fetch,
                    off: nat, count: nat, local: bool, heap0: seq<Entry>, ghost dropped0: seq<Entry>)
    returns (heap: seq<Entry>, ghost dropped: seq<Entry>)
    requires k > 0 && off + count <= |allowed|
    requires forall i :: off <= i < off + count ==> IsLocal(allowed[i]) == local
    requires Keeps(Order(ascending), k, Entries(allowed, fetchLocal, fetchTable)[..off], heap0, dropped0)
    ensures Keeps(Order(ascending), k, Entries(allowed, fetchLocal, fetchTable)[..off + count], heap, dropped)
  {
    CloserIsTotalOrder(ascending);
    heap, dropped := heap0, dropped0;
    ghost var all := Entries(allowed, fetchLocal, fetchTable);
    for i := 0 to count
      invariant Keeps(Order(ascending), k, all[..off + i], heap, dropped)
    {
      var row := allowed[off + i];
      var e := EntryOf(row, if local then fetchLocal(row) else fetchTable(row));
      assert all[..off + i] + [e] == all[..off + i + 1];
      heap, dropped := Offer(Order(ascending), k, heap, e, all[..off + i], dropped);
    }
  }

  // ----- What the order means for the fetched scores -----

  /** A row's score, fetched from the transaction's local storage from row id 36028797018960000 on. */
  ghost function ScoreOf(row: int, fetchLocal: Fetch, fetchTable: Fetch): Fetched {
    if row < 36028797018960000 then fetchTable(row) else fetchLocal(row)
  }

  /** Numbers rise when ascending and fall otherwise. */
  ghost predicate NumbersInOrder(ascending: bool, a: Score, b: Score) {
    a != NotANumber && b != NotANumber ==> if ascending then NoMore(a, b) else NoMore(b, a)
  }

  /** NaN comes after the numbers when ascending and before them otherwise. */
  ghost predicate NaNInOrder(ascending: bool, a: Score, b: Score) {
    if ascending then a == NotANumber ==> b == NotANumber else b == NotANumber ==> a == NotANumber
  }

  /** Row `a` with score `x` may stand before row `b` with score `y`: no score comes before any, and equal
      scores go by row id. */
  ghost predicate InOrder(ascending: bool, a: int, x: Fetched, b: int, y: Fetched) {
    && (x.Invalid? ==> y.Invalid?)
    && (x.Value? && y.Value? ==> NumbersInOrder(ascending, x.score, y.score) && NaNInOrder(ascending, x.score, y.score))
    && (x == y ==> a <= b)
  }

  ghost predicate RowsInOrder(ascending: bool, a: int, b: int, fetchLocal: Fetch, fetchTable: Fetch) {
    InOrder(ascending, a, ScoreOf(a, fetchLocal, fetchTable), b, ScoreOf(b, fetchLocal, fetchTable))
  }

  lemma AtMostIsInOrder(ascending: bool, a: int, x: Fetched, b: int, y: Fetched)
    requires AtMost(Order(ascending), EntryOf(a, x), EntryOf(b, y))
    ensures InOrder(ascending, a, x, b, y)
  {
    if x.Value? && y.Value? {
      GreaterIff(x.score, y.score);
      GreaterIff(y.score, x.score);
    }
  }

  /** The rows `ids` are the closest of the rows allowed, in order; `left` are the others. */
  ghost predicate IsTopK(ascending: bool, allowed: seq<int>, fetchLocal: Fetch, fetchTable: Fetch,
                         ids: seq<int>, left: seq<int>)
  {
    && multiset(ids) + multiset(left) == multiset(allowed)
    && (forall i, j :: 0 <= i < j < |ids| ==> RowsInOrder(ascending, ids[i], ids[j], fetchLocal, fetchTable))
    && (forall i, j :: 0 <= i < |ids| && 0 <= j < |left| ==>
          RowsInOrder(ascending, ids[i], left[j], fetchLocal, fetchTable))
  }

  /** The distance reported for a row: 0 for one without a score. */
  ghost predicate Reports(row: int, fetchLocal: Fetch, fetchTable: Fetch, distance: Score) {
    var fetched := ScoreOf(row, fetchLocal, fetchTable);
    if fetched.Invalid? then distance == Finite(0.0) else distance == fetched.score
  }

  ghost function Rows(s: seq<Entry>): (r: seq<int>)
    ensures |r| == |s|
  {
    seq(|s|, i requires 0 <= i < |s| => s[i].row)
  }

  /** Every entry is the row it names with that row's score. */
  ghost predicate Genuine(s: seq<Entry>, fetchLocal: Fetch, fetchTable: Fetch) {
    forall i :: 0 <= i < |s| ==> s[i] == EntryOf(s[i].row, ScoreOf(s[i].row, fetchLocal, fetchTable))
  }

  lemma EntriesAreGenuine(allowed: seq<int>, fetchLocal: Fetch, fetchTable: Fetch)
    ensures Genuine(Entries(allowed, fetchLocal, fetchTable), fetchLocal, fetchTable)
    ensures Rows(Entries(allowed, fetchLocal, fetchTable)) == allowed
  {
  }

  lemma GenuineParts(all: seq<Entry>, part: seq<Entry>, rest: seq<Entry>, fetchLocal: Fetch, fetchTable: Fetch)
    requires multiset(part) + multiset(rest) == multiset(all) && Genuine(all, fetchLocal, fetchTable)
    ensures Genuine(part, fetchLocal, fetchTable) && Genuine(rest, fetchLocal, fetchTable)
  {
    forall i | 0 <= i < |part| ensures part[i] == EntryOf(part[i].row, ScoreOf(part[i].row, fetchLocal, fetchTable)) {
      assert part[i] in multiset(all);
    }
    forall i | 0 <= i < |rest| ensures rest[i] == EntryOf(rest[i].row, ScoreOf(rest[i].row, fetchLocal, fetchTable)) {
      assert rest[i] in multiset(all);
    }
  }

  ghost function Without<T>(s: seq<T>, j: nat): (r: seq<T>)
    requires j < |s|
    ensures |r| == |s| - 1
  {
    s[..j] + s[j + 1..]
  }

  lemma WithoutOne<T>(s: seq<T>, j: nat, x: T)
    requires j < |s| && s[j] == x
    ensures multiset(s) == multiset(Without(s, j)) + multiset{x}
    ensures multiset(Without(s, j)) == multiset(s) - multiset{x}
  {
    assert s == s[..j] + [s[j]] + s[j + 1..];
  }

  lemma RowsWithout(s: seq<Entry>, j: nat)
    requires j < |s|
    ensures multiset(Rows(s)) == multiset(Rows(Without(s, j))) + multiset{s[j].row}
  {
    WithoutOne(Rows(s), j, s[j].row);
    assert Rows(Without(s, j)) == Without(Rows(s), j);
  }

  /** The same entries name the same rows. */
  lemma {:induction false} SameRows(s: seq<Entry>, t: seq<Entry>)
    requires multiset(s) == multiset(t)
    ensures multiset(Rows(s)) == multiset(Rows(t))
    decreases |s|
  {
    assert |multiset(s)| == |s| && |multiset(t)| == |t|;
    if s != [] {
      var e := s[0];
      assert e in multiset(t);
      var j: nat :| j < |t| && t[j] == e;
      WithoutOne(s, 0, e);
      WithoutOne(t, j, e);
      SameRows(Without(s, 0), Without(t, j));
      RowsWithout(s, 0);
      RowsWithout(t, j);
    }
  }

  lemma KeptAreTopK(ascending: bool, allowed: seq<int>, fetchLocal: Fetch, fetchTable: Fetch, k: nat,
                    heap: seq<Entry>, dropped: seq<Entry>, sorted: seq<Entry>)
    requires Keeps(Order(ascending), k, Entries(allowed, fetchLocal, fetchTable), heap, dropped)
    requires Sorted(Order(ascending), sorted) && multiset(sorted) == multiset(heap)
    ensures IsTopK(ascending, allowed, fetchLocal, fetchTable, Rows(sorted), Rows(dropped))
    ensures Genuine(sorted, fetchLocal, fetchTable)
  {
    var all := Entries(allowed, fetchLocal, fetchTable);
    EntriesAreGenuine(allowed, fetchLocal, fetchTable);
    GenuineParts(all, sorted, dropped, fetchLocal, fetchTable);
    SameRows(sorted + dropped, all);
    assert Rows(sorted + dropped) == Rows(sorted) + Rows(dropped);
    forall i, j | 0 <= i < j < |sorted|
      ensures RowsInOrder(ascending, sorted[i].row, sorted[j].row, fetchLocal, fetchTable)
    {
      EntriesInOrder(ascending, sorted[i], sorted[j], fetchLocal, fetchTable);
    }
    forall i, j | 0 <= i < |sorted| && 0 <= j < |dropped|
      ensures RowsInOrder(ascending, sorted[i].row, dropped[j].row, fetchLocal, fetchTable)
    {
      assert sorted[i] in multiset(heap);
      assert dropped[j] in dropped && sorted[i] in heap;
      EntriesInOrder(ascending, sorted[i], dropped[j], fetchLocal, fetchTable);
    }
  }

  lemma EntriesInOrder(ascending: bool, a: Entry, b: Entry, fetchLocal: Fetch, fetchTable: Fetch)
    requires AtMost(Order(ascending), a, b)
    requires a == EntryOf(a.row, ScoreOf(a.row, fetchLocal, fetchTable))
    requires b == EntryOf(b.row, ScoreOf(b.row, fetchLocal, fetchTable))
    ensures RowsInOrder(ascending, a.row, b.row, fetchLocal, fetchTable)
  {
    AtMostIsInOrder(ascending, a.row, ScoreOf(a.row, fetchLocal, fetchTable),
                    b.row, ScoreOf(b.row, fetchLocal, fetchTable));
  }

  /** `VexFilteredExact`: ids and distances of the k closest allowed rows, in order. */
  method FilteredExact(ascending: bool, allowed: seq<int>, limit: nat, fetchLocal: Fetch, fetchTable: Fetch)
    returns (ids: seq<int>, distances: seq<Score>, scored: nat, ghost left: seq<int>)
    ensures |ids| == |distances| == if limit < |allowed| then limit else |allowed|
    ensures IsTopK(ascending, allowed, fetchLocal, fetchTable, ids, left)
    ensures forall i :: 0 <= i < |ids| ==> Reports(ids[i], fetchLocal, fetchTable, distances[i])
    ensures var all := Sort(Order(ascending), Entries(allowed, fetchLocal, fetchTable));
            |all| == |allowed| && forall i :: 0 <= i < |ids| ==> ids[i] == all[i].row
    ensures scored == if limit == 0 then 0 else |allowed|
  {
    ids, distances, scored, left := [], [], 0, allowed;
    CloserIsTotalOrder(ascending);
    ghost var all := Entries(allowed, fetchLocal, fetchTable);
    SortLength(Order(ascending), all);
    var k := if limit < |allowed| then limit else |allowed|;
    if k == 0 {
      return;
    }
    var heap: seq<Entry> := [];
    ghost var dropped: seq<Entry> := [];
    var off := 0;
    while off < |allowed|
      invariant off <= |allowed| && scored == off && Keeps(Order(ascending), k, all[..off], heap, dropped)
    {
      var count, local := NextBatch(allowed, off);
      heap, dropped := ScoreBatch(ascending, k, allowed, fetchLocal, fetchTable, off, count, local, heap, dropped);
      scored := scored + count;
      off := off + count;
    }
    assert all[..off] == all;
    var sorted := SortHeap(Order(ascending), heap);
    KeptIsTopK(Order(ascending), k, all, heap, dropped, sorted);
    KeptAreTopK(ascending, allowed, fetchLocal, fetchTable, k, heap, dropped, sorted);
    left := Rows(dropped);
    ids := seq(|sorted|, i requires 0 <= i < |sorted| => sorted[i].row);
    assert ids == Rows(sorted);
    distances := seq(|sorted|, i requires 0 <= i < |sorted| => Distance(sorted[i]));
  }
}
