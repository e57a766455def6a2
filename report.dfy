/**
 * The per-student report (`generate_student_report`, BackEnd.py lines
 * 238-302).
 *
 * `GenerateStudentReport` is the function as its authors evidently meant it:
 * the row query reads the `Teacher` table with a LEFT JOIN, as the detail
 * expander at line 229 does, and the loop at lines 276-291 accumulates the
 * major count, the per-week dictionary (insertion-ordered, modelled as a map
 * plus the order its keys were first added) and the detail entries. The code
 * as written is modelled separately by `GenerateReportAsWritten` and
 * `InnerJoinRows`.
 */
module Report {
  import opened Calendar
  import opened Seqs
  import opened Schema
  import opened Conflicts

  /** One dictionary of `report_data`. */
  datatype ReportEntry = ReportEntry(assessment: string, course: string, level: Level, due: Day,
                                     week: WeekKey, teacher: Option<string>, priority: Priority)

  /** The returned dictionary. */
  datatype Report = Report(studentId: string, name: string, totalAssessments: nat, totalMajor: nat,
                           overloadedWeeks: seq<WeekKey>, details: seq<ReportEntry>)

  /**
   * The report query with `Teacher` LEFT JOINed: one row per enrollment of the
   * student and target of that course, ordered by due date.
   */
  function ReportRows(db: Db, sid: string): (rows: seq<DetailRow>)
    ensures forall i, j :: 0 <= i < j < |rows| ==> rows[i].assessment.due <= rows[j].assessment.due
    ensures forall x :: x in rows ==>
      Enrollment(sid, x.course.id) in db.enrollments && Target(x.assessment.id, x.course.id) in db.targets
      && x.assessment in db.assessments && x.course in db.courses
      && x.teacher == TeacherNameOf(db, x.course)
  {
    var hits := Hits(db, sid);
    var rows := SortBy(DetailRows(db, hits), DueKey);
    assert forall i, j :: 0 <= i < j < |rows| ==> DueKey(rows[i]) <= DueKey(rows[j]);
    forall x | x in rows
      ensures Enrollment(sid, x.course.id) in db.enrollments && Target(x.assessment.id, x.course.id) in db.targets
      ensures x.assessment in db.assessments && x.course in db.courses
      ensures x.teacher == TeacherNameOf(db, x.course)
    {
      assert x in multiset(DetailRows(db, hits));
      DetailRowSound(db, sid, hits, x);
    }
    rows
  }

  function EntryOf(r: DetailRow): (e: ReportEntry)
    ensures e.week == WeekOf(e.due) && e.due == r.assessment.due
  {
    ReportEntry(r.assessment.name, r.course.name, r.course.level, r.assessment.due,
                WeekOf(r.assessment.due), r.teacher, r.assessment.priority)
  }

  /** One entry per row, in row order. */
  function Entries(rows: seq<DetailRow>): (es: seq<ReportEntry>)
    ensures |es| == |rows|
    ensures forall i :: 0 <= i < |rows| ==> es[i] == EntryOf(rows[i])
  {
    if rows == [] then [] else Entries(rows[..|rows| - 1]) + [EntryOf(rows[|rows| - 1])]
  }

  lemma EntriesSnoc(rows: seq<DetailRow>, k: nat)
    requires k < |rows|
    ensures Entries(rows[..k + 1]) == Entries(rows[..k]) + [EntryOf(rows[k])]
  {
    assert rows[..k + 1][..k] == rows[..k];
  }

  predicate IsMajorRow(r: DetailRow) {
    r.assessment.priority == Major
  }

  /** The priority-1 tally of week `w` among `rows`. */
  function Tally(rows: seq<DetailRow>, w: WeekKey): nat {
    |RowsIn(rows, w)|
  }

  /** The weeks of the major rows, each once, in the order they first occur. */
  function FirstWeeks(rows: seq<DetailRow>): (ws: seq<WeekKey>)
    ensures NoDup(ws)
    ensures forall w :: w in ws <==> Tally(rows, w) > 0
  {
    if rows == [] then []
    else
      var init := rows[..|rows| - 1];
      var last := rows[|rows| - 1];
      var p := FirstWeeks(init);
      var w := WeekOf(last.assessment.due);
      TallySnoc(init, last);
      assert rows == init + [last];
      if IsMajorRow(last) && w !in p then
        NoDupAppend(p, [w]);
        p + [w]
      else p
  }

  /** The weeks of `ws` whose tally reaches the threshold, in the order of `ws`. */
  function KeepOverloaded(ws: seq<WeekKey>, rows: seq<DetailRow>): (r: seq<WeekKey>)
    ensures forall w :: w in r <==> w in ws && Tally(rows, w) >= Threshold
  {
    if ws == [] then []
    else
      var last := ws[|ws| - 1];
      assert ws == ws[..|ws| - 1] + [last];
      KeepOverloaded(ws[..|ws| - 1], rows) + (if Tally(rows, last) >= Threshold then [last] else [])
  }

  /** `[w for w, count in overload_weeks.items() if count >= 4]`. */
  function Overloaded(rows: seq<DetailRow>): seq<WeekKey> {
    KeepOverloaded(FirstWeeks(rows), rows)
  }

  lemma TallySnoc(rows: seq<DetailRow>, x: DetailRow)
    ensures forall w :: Tally(rows + [x], w) == Tally(rows, w) + (if RowMajorIn(x, w) then 1 else 0)
  {
    forall w ensures Tally(rows + [x], w) == Tally(rows, w) + (if RowMajorIn(x, w) then 1 else 0) {
      RowsInAppend(rows, [x], w);
    }
  }

  /**
   * `generate_student_report`: none when the student id is absent; otherwise
   * the totals, the overloaded weeks and one entry per row of the report query.
   */
  method GenerateStudentReport(db: Db, sid: string) returns (r: Option<Report>)
    ensures r.None? <==> !db.HasStudent(sid)
    ensures r.Some? ==>
      var rows := ReportRows(db, sid);
      && FindStudent(db.students, sid).Some?
      && r.value.studentId == sid && r.value.name == FindStudent(db.students, sid).value.name
      && r.value.totalAssessments == |rows|
      && r.value.totalMajor == Count(rows, IsMajorRow)
      && r.value.overloadedWeeks == Overloaded(rows)
      && r.value.details == Entries(rows)
    ensures db.HasStudent(sid) && Hits(db, sid) == [] ==>
      r == Some(Report(sid, FindStudent(db.students, sid).value.name, 0, 0, [], []))
  {
    var student := FindStudent(db.students, sid);
    if student.None? {
      return None;
    }
    var studentName := student.value.name;
    var rows := ReportRows(db, sid);
    if Hits(db, sid) == [] {
      NoAssessmentsEmptyReport(db, sid);
    }

    var majorCount, overloadWeeks, order, reportData := AccumulateRows(rows);
    var overloaded := SelectOverloaded(order, overloadWeeks, rows);
    return Some(Report(sid, studentName, |rows|, majorCount, overloaded, reportData));
  }

  /**
   * The loop over the rows: the major count, the per-week dictionary (its
   * counts, and its keys in insertion order) and the detail entries.
   */
  method AccumulateRows(rows: seq<DetailRow>)
    returns (majorCount: nat, overloadWeeks: map<WeekKey, nat>, order: seq<WeekKey>, reportData: seq<ReportEntry>)
    ensures majorCount == Count(rows, IsMajorRow)
    ensures order == FirstWeeks(rows)
    ensures DictMatches(overloadWeeks, order, rows)
    ensures reportData == Entries(rows)
  {
    reportData := [];
    overloadWeeks := map[];
    order := [];
    majorCount := 0;
    for k := 0 to |rows|
      invariant majorCount == Count(rows[..k], IsMajorRow)
      invariant order == FirstWeeks(rows[..k])
      invariant DictMatches(overloadWeeks, order, rows[..k])
      invariant reportData == Entries(rows[..k])
    {
      majorCount, overloadWeeks, order, reportData := AccumulateRow(rows, k, majorCount, overloadWeeks, order, reportData);
    }
    assert rows[..|rows|] == rows;
  }

  /** One pass of the loop body: the state for `rows[..k]` becomes the state for `rows[..k + 1]`. */
  method AccumulateRow(rows: seq<DetailRow>, k: int, majorCount: nat, overloadWeeks: map<WeekKey, nat>,
                       order: seq<WeekKey>, reportData: seq<ReportEntry>)
    returns (majorCount': nat, overloadWeeks': map<WeekKey, nat>, order': seq<WeekKey>, reportData': seq<ReportEntry>)
    requires 0 <= k < |rows|
    requires majorCount == Count(rows[..k], IsMajorRow) && order == FirstWeeks(rows[..k])
    requires DictMatches(overloadWeeks, order, rows[..k]) && reportData == Entries(rows[..k])
    ensures majorCount' == Count(rows[..k + 1], IsMajorRow) && order' == FirstWeeks(rows[..k + 1])
    ensures DictMatches(overloadWeeks', order', rows[..k + 1]) && reportData' == Entries(rows[..k + 1])
  {
    var row := rows[k];
    var week := WeekOf(row.assessment.due);
    assert rows[..k + 1] == rows[..k] + [row];
    CountSnoc(rows[..k], row, IsMajorRow);
    EntriesSnoc(rows, k);
    majorCount', overloadWeeks', order' := majorCount, overloadWeeks, order;
    if row.assessment.priority == Major {
      MajorRowStep(overloadWeeks, order, rows[..k], row);
      majorCount' := majorCount + 1;
      var previous := if week in overloadWeeks then overloadWeeks[week] else 0;
      if week !in overloadWeeks {
        order' := order + [week];
      }
      overloadWeeks' := overloadWeeks[week := previous + 1];
    } else {
      MinorRowStep(overloadWeeks, order, rows[..k], row);
    }
    reportData' := reportData + [EntryOf(row)];
  }

  /** The dictionary holds exactly the keys of `order`, each with its week's tally. */
  ghost predicate DictMatches(m: map<WeekKey, nat>, order: seq<WeekKey>, rows: seq<DetailRow>) {
    && (forall w :: w in m <==> w in order)
    && (forall w :: w in m ==> m[w] == Tally(rows, w))
  }

  /** A major row bumps its week's count, adding the week as a new key when it is unseen. */
  lemma MajorRowStep(m: map<WeekKey, nat>, order: seq<WeekKey>, rows: seq<DetailRow>, row: DetailRow)
    requires DictMatches(m, order, rows) && order == FirstWeeks(rows) && IsMajorRow(row)
    ensures var w := WeekOf(row.assessment.due);
      var order' := if w in m then order else order + [w];
      DictMatches(m[w := (if w in m then m[w] else 0) + 1], order', rows + [row])
      && order' == FirstWeeks(rows + [row])
  {
    var w := WeekOf(row.assessment.due);
    MajorRowWeeks(order, rows, row);
    MajorRowCounts(m, rows, row, w);
  }

  lemma MajorRowWeeks(order: seq<WeekKey>, rows: seq<DetailRow>, row: DetailRow)
    requires order == FirstWeeks(rows) && IsMajorRow(row)
    ensures var w := WeekOf(row.assessment.due);
      FirstWeeks(rows + [row]) == if w in order then order else order + [w]
  {
    var r := rows + [row];
    assert r[..|r| - 1] == rows && r[|r| - 1] == row;
  }

  lemma MajorRowCounts(m: map<WeekKey, nat>, rows: seq<DetailRow>, row: DetailRow, w: WeekKey)
    requires forall v :: v in m ==> m[v] == Tally(rows, v)
    requires forall v :: v !in m ==> Tally(rows, v) == 0
    requires IsMajorRow(row) && w == WeekOf(row.assessment.due)
    ensures var m' := m[w := (if w in m then m[w] else 0) + 1];
      forall v :: v in m' ==> m'[v] == Tally(rows + [row], v)
  {
    TallySnoc(rows, row);
    var m' := m[w := (if w in m then m[w] else 0) + 1];
    forall v | v in m' ensures m'[v] == Tally(rows + [row], v) {
      if v != w {
        assert !RowMajorIn(row, v);
      }
    }
  }

  /** A minor row leaves the dictionary as it is. */
  lemma MinorRowStep(m: map<WeekKey, nat>, order: seq<WeekKey>, rows: seq<DetailRow>, row: DetailRow)
    requires DictMatches(m, order, rows) && order == FirstWeeks(rows) && !IsMajorRow(row)
    ensures DictMatches(m, order, rows + [row]) && order == FirstWeeks(rows + [row])
  {
    var r := rows + [row];
    assert r[..|r| - 1] == rows && r[|r| - 1] == row;
    TallySnoc(rows, row);
  }

  /** The comprehension at the end: the dictionary's keys, in insertion order, whose count reaches the threshold. */
  method SelectOverloaded(order: seq<WeekKey>, overloadWeeks: map<WeekKey, nat>, ghost rows: seq<DetailRow>)
    returns (overloaded: seq<WeekKey>)
    requires DictMatches(overloadWeeks, order, rows)
    ensures overloaded == KeepOverloaded(order, rows)
  {
    overloaded := [];
    for k := 0 to |order|
      invariant overloaded == KeepOverloaded(order[..k], rows)
    {
      assert order[..k + 1][..k] == order[..k];
      if overloadWeeks[order[k]] >= Threshold {
        overloaded := overloaded + [order[k]];
      }
    }
    assert order[..|order|] == order;
  }

  /** TotalMajor never exceeds TotalAssessments. */
  lemma {:induction false} MajorWithinTotal(rows: seq<DetailRow>)
    ensures Count(rows, IsMajorRow) <= |rows|
    ensures Count(rows, IsMajorRow) == |rows| <==> forall x :: x in rows ==> IsMajorRow(x)
  {
    if rows != [] {
      MajorWithinTotal(rows[1..]);
      assert rows == [rows[0]] + rows[1..];
    }
  }

  /** The overloaded weeks are exactly the weeks with a tally of four or more, each listed once. */
  lemma OverloadedExactly(rows: seq<DetailRow>)
    ensures forall w :: w in Overloaded(rows) <==> Tally(rows, w) >= Threshold
    ensures NoDup(Overloaded(rows))
  {
    KeepOverloadedNoDup(FirstWeeks(rows), rows);
  }

  lemma {:induction false} KeepOverloadedNoDup(ws: seq<WeekKey>, rows: seq<DetailRow>)
    requires NoDup(ws)
    ensures NoDup(KeepOverloaded(ws, rows))
  {
    if ws != [] {
      var init := ws[..|ws| - 1];
      var last := ws[|ws| - 1];
      assert NoDup(init) by {
        forall i, j | 0 <= i < j < |init| ensures init[i] != init[j] {
          assert init[i] == ws[i] && init[j] == ws[j];
        }
      }
      assert last !in init by {
        forall k | 0 <= k < |init| ensures init[k] != last {
          assert init[k] == ws[k];
        }
      }
      KeepOverloadedNoDup(init, rows);
      var tail: seq<WeekKey> := if Tally(rows, last) >= Threshold then [last] else [];
      NoDupAppend(KeepOverloaded(init, rows), tail);
    }
  }

  lemma {:induction false} RowsInMultiset(a: seq<DetailRow>, w: WeekKey, x: DetailRow)
    ensures multiset(RowsIn(a, w))[x] == if RowMajorIn(x, w) then multiset(a)[x] else 0
  {
    if a != [] {
      RowsInMultiset(a[1..], w, x);
      assert a == [a[0]] + a[1..];
    }
  }

  /** Reordering the rows leaves every week's tally unchanged. */
  lemma TallyPermutation(a: seq<DetailRow>, b: seq<DetailRow>, w: WeekKey)
    requires multiset(a) == multiset(b)
    ensures Tally(a, w) == Tally(b, w)
  {
    forall x ensures multiset(RowsIn(a, w))[x] == multiset(RowsIn(b, w))[x] {
      RowsInMultiset(a, w, x);
      RowsInMultiset(b, w, x);
    }
    assert multiset(RowsIn(a, w)) == multiset(RowsIn(b, w));
    assert |multiset(RowsIn(a, w))| == |RowsIn(a, w)|;
    assert |multiset(RowsIn(b, w))| == |RowsIn(b, w)|;
  }

  /** The report's weekly tally is the detector's major count for the same week. */
  lemma ReportTallyIsMajorCount(db: Db, sid: string, w: WeekKey)
    requires db.Valid()
    ensures Tally(ReportRows(db, sid), w) == MajorCount(db, sid, w)
  {
    var hits := Hits(db, sid);
    TallyPermutation(ReportRows(db, sid), DetailRows(db, hits), w);
    forall h | h in hits ensures db.HasCourse(h.course) {
      HitsMembership(db, sid, h);
    }
    RowsInCountsHits(db, hits, w);
  }

  /**
   * In a valid store the report of an existing student lists as overloaded
   * exactly the weeks the detector reports for that student.
   */
  lemma ReportMatchesDetector(db: Db, sid: string, w: WeekKey)
    requires db.Valid() && db.HasStudent(sid)
    ensures w in Overloaded(ReportRows(db, sid)) <==>
            exists c :: c in DetectAssessmentConflicts(db) && c.student == sid && c.week == w
  {
    OverloadedExactly(ReportRows(db, sid));
    ReportTallyIsMajorCount(db, sid, w);
    DetectMembership(db, sid, w);
  }

  /**
   * Every join row of the student is listed: a hit whose course exists yields
   * its row, with the course's teacher name, in the report.
   */
  lemma ReportRowsComplete(db: Db, sid: string, h: Hit)
    requires h in Hits(db, sid) && FindCourse(db.courses, h.course).Some?
    ensures var c := FindCourse(db.courses, h.course).value;
      DetailRow(h.assessment, c, TeacherNameOf(db, c)) in ReportRows(db, sid)
  {
    var hits := Hits(db, sid);
    var c := FindCourse(db.courses, h.course).value;
    var x := DetailRow(h.assessment, c, TeacherNameOf(db, c));
    DetailRowsComplete(db, hits, h);
    assert x in multiset(DetailRows(db, hits));
    assert x in multiset(SortBy(DetailRows(db, hits), DueKey));
  }

  /** In a valid store `TotalAssessments` counts the student's join rows: one report row per hit. */
  lemma ReportRowsCount(db: Db, sid: string)
    requires db.Valid()
    ensures |ReportRows(db, sid)| == |Hits(db, sid)|
  {
    var hits := Hits(db, sid);
    forall h | h in hits ensures db.HasCourse(h.course) {
      HitsMembership(db, sid, h);
    }
    DetailRowsCount(db, hits);
  }

  /**
   * A student reaches no assessment exactly when none of their enrollments
   * meets a target naming an existing assessment: no enrollments at all, or
   * enrolled courses that no assessment targets.
   */
  lemma NoHitsIff(db: Db, sid: string)
    ensures Hits(db, sid) == [] <==>
      forall e, t :: e in db.enrollments && t in db.targets && e.student == sid && t.course == e.course ==>
        FindAssessment(db.assessments, t.assessment).None?
  {
    var hits := Hits(db, sid);
    if hits != [] {
      var h := hits[0];
      HitsMembership(db, sid, h);
      var e, t := Enrollment(sid, h.course), Target(h.assessment.id, h.course);
      assert e in db.enrollments && t in db.targets && e.student == sid && t.course == e.course;
      assert FindAssessment(db.assessments, t.assessment).Some?;
    } else {
      forall e, t | e in db.enrollments && t in db.targets && e.student == sid && t.course == e.course
        ensures FindAssessment(db.assessments, t.assessment).None?
      {
        var a := FindAssessment(db.assessments, t.assessment);
        if a.Some? {
          HitsMembership(db, sid, Hit(e.course, a.value));
          assert false;
        }
      }
    }
  }

  /** A student who reaches no assessment has no report rows: zero totals, no overloaded weeks, no details. */
  lemma NoAssessmentsEmptyReport(db: Db, sid: string)
    requires Hits(db, sid) == []
    ensures var rows := ReportRows(db, sid);
            rows == [] && Count(rows, IsMajorRow) == 0 && Overloaded(rows) == [] && Entries(rows) == []
  {
    assert DetailRows(db, Hits(db, sid)) == [];
  }

  // ---------------------------------------------------------------------------
  // The function as written.

  /** What a call of the function as written ends in. */
  datatype AsWrittenOutcome = Returned(report: Option<Report>) | Raised

  /**
   * `generate_student_report` as written: the name lookup succeeds, but the
   * row query names the table `Teachers`, which the schema does not define, so
   * executing it raises before any row is read.
   */
  function GenerateReportAsWritten(db: Db, sid: string): (r: AsWrittenOutcome)
    ensures r == Returned(None) <==> !db.HasStudent(sid)
  {
    if FindStudent(db.students, sid).None? then Returned(None) else Raised
  }

  /** As written, no student ever gets a report: the call returns none or raises. */
  lemma AsWrittenNeverReports(db: Db, sid: string)
    ensures !(GenerateReportAsWritten(db, sid).Returned? && GenerateReportAsWritten(db, sid).report.Some?)
    ensures db.HasStudent(sid) ==> GenerateReportAsWritten(db, sid) == Raised
  {
  }

  /** The rows an inner join on `Teacher` keeps: those whose course has a teacher. */
  function InnerJoinRows(rows: seq<DetailRow>): (r: seq<DetailRow>)
    ensures forall x :: x in r <==> x in rows && x.teacher.Some?
  {
    if rows == [] then []
    else (if rows[0].teacher.Some? then [rows[0]] else []) + InnerJoinRows(rows[1..])
  }

  /**
   * With the inner join, a week the detector reports can be missing from the
   * report: when none of the student's courses has a teacher, every row is
   * dropped, although the corrected report lists the week.
   */
  lemma InnerJoinMissesOverload(db: Db, sid: string, w: WeekKey)
    requires db.Valid() && db.HasStudent(sid) && MajorCount(db, sid, w) >= Threshold
    requires forall c :: c in db.courses ==> c.teacher.None?
    ensures w in Overloaded(ReportRows(db, sid))
    ensures InnerJoinRows(ReportRows(db, sid)) == []
    ensures w !in Overloaded(InnerJoinRows(ReportRows(db, sid)))
  {
    ReportTallyIsMajorCount(db, sid, w);
    OverloadedExactly(ReportRows(db, sid));
    InnerJoinDropsTeacherless(ReportRows(db, sid));
  }

  lemma {:induction false} InnerJoinDropsTeacherless(rows: seq<DetailRow>)
    requires forall x :: x in rows ==> x.teacher.None?
    ensures InnerJoinRows(rows) == []
  {
    if rows != [] {
      assert rows[0] in rows;
      InnerJoinDropsTeacherless(rows[1..]);
    }
  }
}
