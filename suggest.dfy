/**
 * The alternative-date suggester (`suggest_alternative_date` with its inner
 * `is_week_overloaded`, BackEnd.py lines 305-337).
 *
 * For offsets i = 1, 2, ... up to the horizon it forms original + i and
 * original - i (both before testing either), and returns the first of them,
 * forward before backward, whose week holds fewer than four major hits of the
 * student. Forming a date outside 0001-01-01 .. 9999-12-31 raises
 * `OverflowError`, modelled as the result `OutOfRange`.
 */
module Suggest {
  import opened Calendar
  import opened Schema
  import opened Conflicts

  /** The default `max_search_days`. */
  const DefaultSearchDays: int := 14

  datatype Suggestion = Found(date: Day) | NoneFound | OutOfRange

  /** `is_week_overloaded`: the student's priority-1 count in the week of `d` reaches the threshold. */
  predicate IsWeekOverloaded(db: Db, sid: string, d: Day) {
    MajorCount(db, sid, WeekOf(d)) >= Threshold
  }

  predicate InRange(d: int) {
    0 <= d <= MaxDay
  }

  /** One of the two candidates at offset `i` is not a representable date. */
  predicate LeavesRange(original: Day, i: int) {
    !InRange(original + i) || !InRange(original - i)
  }

  /** Offset `i` yields nothing: both candidates exist and both weeks are overloaded. */
  predicate Blocked(db: Db, sid: string, original: Day, i: int) {
    InRange(original + i) && InRange(original - i)
    && IsWeekOverloaded(db, sid, original + i) && IsWeekOverloaded(db, sid, original - i)
  }

  /** Every offset from 1 up to, not including, `n` is blocked. */
  predicate BlockedBelow(db: Db, sid: string, original: Day, n: int) {
    forall j :: 1 <= j < n ==> Blocked(db, sid, original, j)
  }

  /**
   * `d` is what the search returns when it finds a date: it lies at the
   * smallest offset that is not blocked, within the horizon, in a week that is
   * not overloaded, and it is the backward date only when the forward one at
   * the same offset is overloaded.
   */
  predicate FoundAt(db: Db, sid: string, original: Day, maxSearchDays: int, d: Day) {
    var i := if d < original then original - d else d - original;
    && 1 <= i <= maxSearchDays && d != original
    && !IsWeekOverloaded(db, sid, d)
    && InRange(original + i) && InRange(original - i)
    && (d < original ==> IsWeekOverloaded(db, sid, original + i))
    && BlockedBelow(db, sid, original, i)
  }

  lemma ForwardFound(db: Db, sid: string, original: Day, maxSearchDays: int, i: int)
    requires 1 <= i <= maxSearchDays && InRange(original + i) && InRange(original - i)
    requires !IsWeekOverloaded(db, sid, original + i) && BlockedBelow(db, sid, original, i)
    ensures FoundAt(db, sid, original, maxSearchDays, original + i)
    ensures !BlockedBelow(db, sid, original, maxSearchDays + 1)
  {
    assert !Blocked(db, sid, original, i);
  }

  lemma BackwardFound(db: Db, sid: string, original: Day, maxSearchDays: int, i: int)
    requires 1 <= i <= maxSearchDays && InRange(original + i) && InRange(original - i)
    requires IsWeekOverloaded(db, sid, original + i) && !IsWeekOverloaded(db, sid, original - i)
    requires BlockedBelow(db, sid, original, i)
    ensures FoundAt(db, sid, original, maxSearchDays, original - i)
    ensures !BlockedBelow(db, sid, original, maxSearchDays + 1)
  {
    assert !Blocked(db, sid, original, i);
    assert original - (original - i) == i;
  }

  lemma OffsetLeavesRange(db: Db, sid: string, original: Day, maxSearchDays: int, i: int)
    requires 1 <= i <= maxSearchDays && LeavesRange(original, i)
    ensures !BlockedBelow(db, sid, original, maxSearchDays + 1)
  {
    assert !Blocked(db, sid, original, i);
  }

  /**
   * The search that `suggest_alternative_date` performs, from offset `i` on:
   * the first offset whose candidates leave the calendar raises, otherwise
   * the forward date is tried before the backward one.
   */
  function Search(db: Db, sid: string, original: Day, maxSearchDays: int, i: int): Suggestion
    requires i >= 1
    decreases maxSearchDays - i
  {
    if i > maxSearchDays then NoneFound
    else if !InRange(original + i) || !InRange(original - i) then OutOfRange
    else if !IsWeekOverloaded(db, sid, original + i) then Found(original + i)
    else if !IsWeekOverloaded(db, sid, original - i) then Found(original - i)
    else Search(db, sid, original, maxSearchDays, i + 1)
  }

  /** What the search returns from offset `i`, once every offset below `i` is blocked. */
  lemma {:induction false} SearchFrom(db: Db, sid: string, original: Day, maxSearchDays: int, i: int)
    requires i >= 1 && BlockedBelow(db, sid, original, i)
    ensures var r := Search(db, sid, original, maxSearchDays, i);
      && (r.Found? ==> FoundAt(db, sid, original, maxSearchDays, r.date))
      && (r.NoneFound? <==> BlockedBelow(db, sid, original, maxSearchDays + 1))
      && (r.OutOfRange? ==>
            exists j :: 1 <= j <= maxSearchDays && LeavesRange(original, j) && BlockedBelow(db, sid, original, j))
    decreases maxSearchDays - i
  {
    if i > maxSearchDays {
      assert BlockedBelow(db, sid, original, maxSearchDays + 1);
    } else if !InRange(original + i) || !InRange(original - i) {
      OffsetLeavesRange(db, sid, original, maxSearchDays, i);
      assert LeavesRange(original, i);
    } else if !IsWeekOverloaded(db, sid, original + i) {
      ForwardFound(db, sid, original, maxSearchDays, i);
    } else if !IsWeekOverloaded(db, sid, original - i) {
      BackwardFound(db, sid, original, maxSearchDays, i);
    } else {
      BlockedStep(db, sid, original, maxSearchDays, i);
      SearchFrom(db, sid, original, maxSearchDays, i + 1);
    }
  }

  /** An offset whose two weeks are both overloaded extends the blocked run, and the search moves past it. */
  lemma BlockedStep(db: Db, sid: string, original: Day, maxSearchDays: int, i: int)
    requires 1 <= i <= maxSearchDays && BlockedBelow(db, sid, original, i)
    requires InRange(original + i) && InRange(original - i)
    requires IsWeekOverloaded(db, sid, original + i) && IsWeekOverloaded(db, sid, original - i)
    ensures BlockedBelow(db, sid, original, i + 1)
    ensures Search(db, sid, original, maxSearchDays, i) == Search(db, sid, original, maxSearchDays, i + 1)
  {
    assert Blocked(db, sid, original, i);
  }

  /**
   * The suggester's result: a found date is at the smallest offset that is
   * not blocked, and at that offset the forward date wins when its week is
   * clear; no date is found exactly when every offset up to the horizon is
   * blocked; a raise happens only at an offset below which all are blocked.
   */
  lemma SuggestionMeaning(db: Db, sid: string, original: Day, maxSearchDays: int)
    ensures var r := Search(db, sid, original, maxSearchDays, 1);
      && (r.Found? ==> FoundAt(db, sid, original, maxSearchDays, r.date))
      && (r.NoneFound? <==> BlockedBelow(db, sid, original, maxSearchDays + 1))
      && (r.OutOfRange? ==>
            exists j :: 1 <= j <= maxSearchDays && LeavesRange(original, j) && BlockedBelow(db, sid, original, j))
  {
    SearchFrom(db, sid, original, maxSearchDays, 1);
  }

  /**
   * One pass of the loop body at offset `i`: either it returns what the
   * search from `i` returns, or the search goes on at `i + 1`.
   */
  method TryOffset(db: Db, sid: string, original: Day, maxSearchDays: int, i: int) returns (done: bool, r: Suggestion)
    requires 1 <= i <= maxSearchDays
    ensures done ==> r == Search(db, sid, original, maxSearchDays, i)
    ensures !done ==> Search(db, sid, original, maxSearchDays, i) == Search(db, sid, original, maxSearchDays, i + 1)
  {
    var forward := original + i;
    var backward := original - i;
    if !InRange(forward) || !InRange(backward) {
      return true, OutOfRange;
    }
    if !IsWeekOverloaded(db, sid, forward) {
      return true, Found(forward);
    }
    if !IsWeekOverloaded(db, sid, backward) {
      return true, Found(backward);
    }
    return false, NoneFound;
  }

  /** `suggest_alternative_date`: the loop over offsets computes the search. */
  method SuggestAlternativeDate(db: Db, sid: string, original: Day, maxSearchDays: int) returns (r: Suggestion)
    ensures r == Search(db, sid, original, maxSearchDays, 1)
  {
    var i := 1;
    while i <= maxSearchDays
      invariant 1 <= i
      invariant Search(db, sid, original, maxSearchDays, i) == Search(db, sid, original, maxSearchDays, 1)
      decreases maxSearchDays - i
    {
      var done;
      done, r := TryOffset(db, sid, original, maxSearchDays, i);
      if done {
        return;
      }
      i := i + 1;
    }
    return NoneFound;
  }

  /** `is_week_overloaded` agrees with the detector: an existing student's week is overloaded iff the detector lists it. */
  lemma WeekOverloadedMatchesDetector(db: Db, sid: string, d: Day)
    requires db.HasStudent(sid)
    ensures IsWeekOverloaded(db, sid, d) <==>
            exists c :: c in DetectAssessmentConflicts(db) && c.student == sid && c.week == WeekOf(d)
  {
    DetectMembership(db, sid, WeekOf(d));
  }

  /** A date the suggester returns is in a week the detector does not report for that student. */
  lemma SuggestionNotFlagged(db: Db, sid: string, d: Day)
    requires !IsWeekOverloaded(db, sid, d)
    ensures forall c :: c in DetectAssessmentConflicts(db) && c.student == sid ==> c.week != WeekOf(d)
  {
    DetectMembership(db, sid, WeekOf(d));
  }
}
