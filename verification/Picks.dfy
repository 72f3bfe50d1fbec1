/** A running best over scores, as the original keeps it: the first offer is taken, and a later one only if
    it compares as better (vexdb_duckdb/include/vex_graph_connectivity.hpp). */
module Picks {
  import opened Basics
  import opened Scores

  /** The first place that offers anything. */
  ghost predicate IsFirst(offers: seq<Option<Score>>, j: int) {
    0 <= j < |offers| && offers[j].Some? && forall i :: 0 <= i < j ==> offers[i].None?
  }

  /** For numbers: `b` is at least as far out as `a`, in the direction looked for. */
  ghost predicate NotBeyond(farthest: bool, a: Score, b: Score) {
    if farthest then NoMore(a, b) else NoMore(b, a)
  }

  /** What ends up chosen, -1 for nothing: the first offer if it is NaN, for NaN is never beaten; otherwise the
      first of the farthest (or nearest) numbers. */
  ghost predicate IsPick(offers: seq<Option<Score>>, farthest: bool, chosen: int) {
    if chosen < 0 then chosen == -1 && forall j :: 0 <= j < |offers| ==> offers[j].None?
    else
      && chosen < |offers| && offers[chosen].Some?
      && (forall j :: IsFirst(offers, j) && offers[j].value == NotANumber ==> chosen == j)
      && (offers[chosen].value == NotANumber ==> IsFirst(offers, chosen))
      && (offers[chosen].value != NotANumber ==> IsOutermost(offers, farthest, chosen))
  }

  ghost predicate IsOutermost(offers: seq<Option<Score>>, farthest: bool, chosen: int)
    requires 0 <= chosen < |offers| && offers[chosen].Some?
  {
    forall j :: 0 <= j < |offers| && offers[j].Some? && offers[j].value != NotANumber ==>
      && NotBeyond(farthest, offers[j].value, offers[chosen].value)
      && (j < chosen ==> !NotBeyond(farthest, offers[chosen].value, offers[j].value))
  }

  lemma NothingPicked(farthest: bool)
    ensures IsPick([], farthest, -1)
  {
  }

  lemma PickSkips(offers: seq<Option<Score>>, farthest: bool, chosen: int)
    requires IsPick(offers, farthest, chosen)
    ensures IsPick(offers + [None], farthest, chosen)
  {
    FirstsAgree(offers, None);
  }

  lemma FirstsAgree(offers: seq<Option<Score>>, e: Option<Score>)
    ensures forall j :: 0 <= j < |offers| ==> (IsFirst(offers + [e], j) <==> IsFirst(offers, j))
  {
    forall j | 0 <= j < |offers| ensures IsFirst(offers + [e], j) <==> IsFirst(offers, j) {
      assert forall i :: 0 <= i <= j ==> (offers + [e])[i] == offers[i];
    }
  }

  /** The first offer is taken whatever it is. */
  lemma PickStarts(offers: seq<Option<Score>>, farthest: bool, chosen: int, score: Score)
    requires IsPick(offers, farthest, chosen) && chosen < 0
    ensures IsPick(offers + [Some(score)], farthest, |offers|)
  {
    assert IsFirst(offers + [Some(score)], |offers|);
  }

  /** A better offer replaces the one held. */
  lemma PickMoves(offers: seq<Option<Score>>, farthest: bool, chosen: int, score: Score)
    requires IsPick(offers, farthest, chosen) && chosen >= 0
    requires if farthest then Greater(score, offers[chosen].value) else Greater(offers[chosen].value, score)
    ensures IsPick(offers + [Some(score)], farthest, |offers|)
  {
    var more, held := offers + [Some(score)], offers[chosen].value;
    GreaterIff(score, held);
    GreaterIff(held, score);
    FirstsAgree(offers, Some(score));
    assert more[chosen] == offers[chosen];
    assert !IsFirst(more, |offers|);
    forall j | 0 <= j < |more| && more[j].Some? && more[j].value != NotANumber
      ensures NotBeyond(farthest, more[j].value, score)
      ensures j < |offers| ==> !NotBeyond(farthest, score, more[j].value)
    {
      if j < |offers| {
        assert more[j] == offers[j];
      }
    }
  }

  lemma PickTakes(offers: seq<Option<Score>>, farthest: bool, chosen: int, score: Score)
    requires IsPick(offers, farthest, chosen)
    requires chosen < 0 ||
             if farthest then Greater(score, offers[chosen].value) else Greater(offers[chosen].value, score)
    ensures IsPick(offers + [Some(score)], farthest, |offers|)
  {
    if chosen < 0 {
      PickStarts(offers, farthest, chosen, score);
    } else {
      PickMoves(offers, farthest, chosen, score);
    }
  }

  /** Any other offer leaves the choice alone. */
  lemma PickStays(offers: seq<Option<Score>>, farthest: bool, chosen: int, score: Score)
    requires IsPick(offers, farthest, chosen) && chosen >= 0
    requires !if farthest then Greater(score, offers[chosen].value) else Greater(offers[chosen].value, score)
    ensures IsPick(offers + [Some(score)], farthest, chosen)
  {
    var more, held := offers + [Some(score)], offers[chosen].value;
    GreaterIff(score, held);
    GreaterIff(held, score);
    FirstsAgree(offers, Some(score));
    assert more[chosen] == offers[chosen];
    assert !IsFirst(more, |offers|);
    if held != NotANumber {
      forall j | 0 <= j < |more| && more[j].Some? && more[j].value != NotANumber
        ensures NotBeyond(farthest, more[j].value, held)
        ensures j < chosen ==> !NotBeyond(farthest, held, more[j].value)
      {
        if j < |offers| {
          assert more[j] == offers[j];
        }
      }
    }
  }
}
