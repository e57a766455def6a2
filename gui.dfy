/**
 * The decisions the Tk pages take (GUI.py): the header-row filter
 * `is_header_junk`, the input guards of the student, assessment and
 * enrollment forms, the add-major → detect → suggest pipeline, and the list
 * refreshes that skip header rows. Widgets, layout and message boxes are not
 * modelled; what a handler would display is returned as its result.
 */
module Gui {
  import opened Calendar
  import opened Seqs
  import opened Schema
  import opened Conflicts
  import opened Suggest
  import opened Database

  // ---------------------------------------------------------------------------
  // `str.strip()` and `str(int)`.

  /** The characters Python's `str.isspace` accepts, which `strip()` removes. */
  predicate IsSpace(c: char) {
    c == ' ' || c == '\t' || c == '\n' || c == '\r' || c == '\U{000B}' || c == '\U{000C}'
    || ('\U{001C}' <= c <= '\U{001F}') || c == '\U{0085}' || c == '\U{00A0}' || c == '\U{1680}'
    || ('\U{2000}' <= c <= '\U{200A}') || c == '\U{2028}' || c == '\U{2029}' || c == '\U{202F}'
    || c == '\U{205F}' || c == '\U{3000}'
  }

  predicate AllSpace(s: string) {
    forall k :: 0 <= k < |s| ==> IsSpace(s[k])
  }

  /** `lstrip()`: the suffix left after dropping leading whitespace. */
  function TrimLeft(s: string): (r: string)
    ensures |r| <= |s| && r == s[|s| - |r|..]
    ensures AllSpace(s[..|s| - |r|])
    ensures r != [] ==> !IsSpace(r[0])
  {
    if s != [] && IsSpace(s[0]) then
      var r := TrimLeft(s[1..]);
      assert s[|s| - |r|..] == s[1..][|s| - 1 - |r|..];
      ConsSpace(s, |s| - 1 - |r|);
      r
    else s
  }

  /** `rstrip()`: the prefix left after dropping trailing whitespace. */
  function TrimRight(s: string): (r: string)
    ensures |r| <= |s| && r == s[..|r|]
    ensures AllSpace(s[|r|..])
    ensures r != [] ==> !IsSpace(r[|r| - 1])
  {
    if s != [] && IsSpace(s[|s| - 1]) then
      var r := TrimRight(s[..|s| - 1]);
      SnocSpace(s, |r|);
      r
    else s
  }

  lemma ConsSpace(s: string, m: int)
    requires 0 <= m < |s| && IsSpace(s[0]) && AllSpace(s[1..][..m])
    ensures AllSpace(s[..m + 1])
  {
    var p, q := s[..m + 1], s[1..][..m];
    forall k | 0 < k < |p|
      ensures IsSpace(p[k])
    {
      assert p[k] == q[k - 1];
    }
  }

  lemma SnocSpace(s: string, m: int)
    requires 0 <= m < |s| && IsSpace(s[|s| - 1]) && AllSpace(s[..|s| - 1][m..])
    ensures AllSpace(s[m..])
  {
    var p, q := s[m..], s[..|s| - 1][m..];
    forall j | 0 <= j < |q|
      ensures IsSpace(p[j])
    {
      assert p[j] == q[j];
    }
  }

  /** `strip()`: no whitespace left at either end, and only whitespace removed. */
  function Strip(s: string): (r: string)
    ensures r == [] <==> AllSpace(s)
    ensures r != [] ==> !IsSpace(r[0]) && !IsSpace(r[|r| - 1])
  {
    var t := TrimLeft(s);
    assert t == [] ==> s[..|s|] == s;
    var r := TrimRight(t);
    assert r != [] ==> r[0] == t[0];
    assert r == [] ==> t[|r|..] == t;
    r
  }

  lemma {:induction false} TrimLeftPadding(p: string, s: string)
    requires AllSpace(p)
    ensures TrimLeft(p + s) == TrimLeft(s)
  {
    if p != [] {
      assert (p + s)[0] == p[0] && (p + s)[1..] == p[1..] + s;
      TrimLeftPadding(p[1..], s);
    } else {
      assert p + s == s;
    }
  }

  lemma {:induction false} TrimLeftKeepsTail(s: string, q: string)
    requires !AllSpace(s)
    ensures TrimLeft(s + q) == TrimLeft(s) + q
  {
    if IsSpace(s[0]) {
      assert (s + q)[1..] == s[1..] + q;
      assert !AllSpace(s[1..]) by {
        var k :| 0 <= k < |s| && !IsSpace(s[k]);
        assert s[1..][k - 1] == s[k];
      }
      TrimLeftKeepsTail(s[1..], q);
    }
  }

  lemma {:induction false} TrimRightPadding(s: string, q: string)
    requires AllSpace(q)
    ensures TrimRight(s + q) == TrimRight(s)
  {
    if q != [] {
      var n := |s + q|;
      assert (s + q)[n - 1] == q[|q| - 1];
      assert (s + q)[..n - 1] == s + q[..|q| - 1];
      TrimRightPadding(s, q[..|q| - 1]);
    } else {
      assert s + q == s;
    }
  }

  /** Whitespace around a value never changes what `strip()` returns. */
  lemma StripIgnoresPadding(p: string, s: string, q: string)
    requires AllSpace(p) && AllSpace(q)
    ensures Strip(p + s + q) == Strip(s)
  {
    assert p + s + q == p + (s + q);
    TrimLeftPadding(p, s + q);
    var left := TrimLeft(s + q);
    assert TrimLeft(p + s + q) == left;
    if AllSpace(s) {
      assert AllSpace(s + q) by {
        forall k | 0 <= k < |s + q|
          ensures IsSpace((s + q)[k])
        {
          if k < |s| { assert (s + q)[k] == s[k]; } else { assert (s + q)[k] == q[k - |s|]; }
        }
      }
      TrimLeftPadding(s + q, []);
      assert s + q + [] == s + q;
      assert left == [];
      assert Strip(s) == [];
    } else {
      TrimLeftKeepsTail(s, q);
      TrimRightPadding(TrimLeft(s), q);
      assert TrimRight(left) == TrimRight(TrimLeft(s));
    }
  }

  lemma StripNoSpace(s: string)
    requires s != [] && !IsSpace(s[0]) && !IsSpace(s[|s| - 1])
    ensures Strip(s) == s
  {
  }

  function DigitChar(d: int): (c: char)
    requires 0 <= d < 10
    ensures '0' <= c <= '9'
  {
    "0123456789"[d]
  }

  /** `str(n)` for a natural number: its decimal digits. */
  function NatToString(n: nat): (s: string)
    ensures |s| > 0 && forall k :: 0 <= k < |s| ==> '0' <= s[k] <= '9'
  {
    if n < 10 then [DigitChar(n)] else NatToString(n / 10) + [DigitChar(n % 10)]
  }

  /** `str(n)`: a minus sign for negative numbers, then the digits. */
  function IntToString(n: int): (s: string)
    ensures |s| > 0 && forall k :: 0 <= k < |s| ==> '0' <= s[k] <= '9' || s[k] == '-'
  {
    if n < 0 then "-" + NatToString(-n) else NatToString(n)
  }

  /** `isdigit()` on ASCII text: non-empty and all decimal digits. */
  predicate IsDigits(s: string) {
    |s| > 0 && forall k :: 0 <= k < |s| ==> '0' <= s[k] <= '9'
  }

  /** `int(s)` for a string of decimal digits. */
  function DigitsValue(s: string): nat
    requires forall k :: 0 <= k < |s| ==> '0' <= s[k] <= '9'
  {
    if s == [] then 0 else 10 * DigitsValue(s[..|s| - 1]) + (s[|s| - 1] - '0') as int
  }

  /** `int(str(n)) == n`. */
  lemma {:induction false} DigitsRoundTrip(n: nat)
    ensures DigitsValue(NatToString(n)) == n
  {
    if n >= 10 {
      var s := NatToString(n);
      assert s[..|s| - 1] == NatToString(n / 10);
      DigitsRoundTrip(n / 10);
    }
  }

  // ---------------------------------------------------------------------------
  // `is_header_junk`.

  /** A value read from a result row: NULL, text or an integer. */
  datatype Cell = NullCell | TextCell(text: string) | IntCell(number: int)

  /** The eight column names whose appearance marks a header row. */
  const HeaderNames: seq<string> :=
    ["TeacherID", "TeacherName", "CourseID", "CourseName", "CourseLevel", "StudentID", "Name", "GradeLevel"]

  predicate IsLetter(c: char) {
    'A' <= c <= 'Z' || 'a' <= c <= 'z'
  }

  lemma LetterNotSpace(c: char)
    requires IsLetter(c)
    ensures !IsSpace(c)
  {
  }

  /** Every column name is non-empty and starts with a capital and ends with a letter. */
  lemma HeaderNamesShape()
    ensures forall h :: h in HeaderNames ==> |h| > 0 && 'A' <= h[0] <= 'Z' && IsLetter(h[|h| - 1])
  {
    forall h | h in HeaderNames
      ensures |h| > 0 && 'A' <= h[0] <= 'Z' && IsLetter(h[|h| - 1])
    {
      var i :| 0 <= i < |HeaderNames| && HeaderNames[i] == h;
      if i == 0 { assert h == "TeacherID"; }
      else if i == 1 { assert h == "TeacherName"; }
      else if i == 2 { assert h == "CourseID"; }
      else if i == 3 { assert h == "CourseName"; }
      else if i == 4 { assert h == "CourseLevel"; }
      else if i == 5 { assert h == "StudentID"; }
      else if i == 6 { assert h == "Name"; }
      else { assert h == "GradeLevel"; }
    }
  }

  /** `str(n)` has no padding and starts with a digit or a minus sign, so it is never a column name. */
  lemma NumberNotHeader(n: int)
    ensures Strip(IntToString(n)) !in HeaderNames
  {
    var s := IntToString(n);
    assert '0' <= s[0] <= '9' || s[0] == '-';
    assert '0' <= s[|s| - 1] <= '9' || s[|s| - 1] == '-';
    StripNoSpace(s);
    HeaderNamesShape();
  }

  /**
   * `is_header_junk`: false for NULL, and otherwise whether `str(value)`,
   * stripped, is one of the column names. An integer is never junk.
   */
  function IsHeaderJunk(v: Cell): (r: bool)
    ensures v.NullCell? ==> !r
    ensures v.IntCell? ==> !r
  {
    match v
    case NullCell => false
    case TextCell(t) => Strip(t) in HeaderNames
    case IntCell(n) => NumberNotHeader(n); Strip(IntToString(n)) in HeaderNames
  }

  /** A text cell is junk exactly when its stripped text is a column name, padding or not. */
  lemma JunkIgnoresPadding(p: string, s: string, q: string)
    requires AllSpace(p) && AllSpace(q)
    ensures IsHeaderJunk(TextCell(p + s + q)) == IsHeaderJunk(TextCell(s))
    ensures IsHeaderJunk(TextCell(p + s + q)) <==> Strip(s) in HeaderNames
  {
    StripIgnoresPadding(p, s, q);
  }

  /** Every column name, however padded, is junk. */
  lemma HeaderNamesAreJunk(p: string, h: string, q: string)
    requires AllSpace(p) && AllSpace(q) && h in HeaderNames
    ensures IsHeaderJunk(TextCell(p + h + q))
  {
    HeaderNamesShape();
    LetterNotSpace(h[0]);
    LetterNotSpace(h[|h| - 1]);
    StripNoSpace(h);
    StripIgnoresPadding(p, h, q);
    assert Strip(p + h + q) == h;
  }

  // ---------------------------------------------------------------------------
  // List refreshes.

  /** The two cells the teacher, course and student lists test: the row's id and its name. */
  datatype ListRow = ListRow(id: Cell, name: Cell)

  predicate Shown(r: ListRow) {
    !IsHeaderJunk(r.name) && !IsHeaderJunk(r.id)
  }

  /** A page's `refresh`: the rows whose id and name are not junk, in query order. */
  method RefreshList(rows: seq<ListRow>) returns (shown: seq<ListRow>)
    ensures shown == Filter(rows, Shown)
  {
    shown := [];
    for k := 0 to |rows|
      invariant shown == Filter(rows[..k], Shown)
    {
      FilterStep(rows, k, Shown);
      if IsHeaderJunk(rows[k].name) || IsHeaderJunk(rows[k].id) {
        continue;
      }
      shown := shown + [rows[k]];
    }
    assert rows[..|rows|] == rows;
  }

  lemma FilterStep<T(!new)>(s: seq<T>, k: nat, p: T -> bool)
    requires k < |s|
    ensures Filter(s[..k + 1], p) == Filter(s[..k], p) + (if p(s[k]) then [s[k]] else [])
  {
    FilterSnoc(s[..k], s[k], p);
    assert s[..k + 1] == s[..k] + [s[k]];
  }

  lemma {:induction false} FilterSnoc<T(!new)>(s: seq<T>, x: T, p: T -> bool)
    ensures Filter(s + [x], p) == Filter(s, p) + (if p(x) then [x] else [])
  {
    if s != [] {
      assert (s + [x])[0] == s[0] && (s + [x])[1..] == s[1..] + [x];
      FilterSnoc(s[1..], x, p);
    } else {
      assert s + [x] == [x];
    }
  }

  /** A list whose every row passes the filter is shown whole, in order. */
  lemma {:induction false} AllShownKept(rows: seq<ListRow>)
    requires forall r :: r in rows ==> Shown(r)
    ensures Filter(rows, Shown) == rows
  {
    if rows != [] {
      assert rows[0] in rows;
      AllShownKept(rows[1..]);
      assert rows == [rows[0]] + rows[1..];
    }
  }

  /**
   * The teacher and course lists, whose ids are INTEGER columns: rows with
   * non-junk names are all shown, in order, so the filter drops only header rows.
   */
  lemma CleanRowsAllShown(rows: seq<ListRow>)
    requires forall r :: r in rows ==> r.id.IntCell? && !IsHeaderJunk(r.name)
    ensures Filter(rows, Shown) == rows
  {
    AllShownKept(rows);
  }

  /**
   * The student list, whose ids are TEXT: every row is shown, in order, exactly
   * when no row's stripped id or stripped name is a column name.
   */
  lemma StudentRowsAllShown(rows: seq<ListRow>)
    requires forall r :: r in rows ==> r.id.TextCell? && r.name.TextCell?
    ensures Filter(rows, Shown) == rows <==>
      forall r :: r in rows ==> Strip(r.id.text) !in HeaderNames && Strip(r.name.text) !in HeaderNames
  {
    if forall r :: r in rows ==> Strip(r.id.text) !in HeaderNames && Strip(r.name.text) !in HeaderNames {
      AllShownKept(rows);
    } else {
      var r :| r in rows && (Strip(r.id.text) in HeaderNames || Strip(r.name.text) in HeaderNames);
      assert r !in Filter(rows, Shown);
    }
  }

  // ---------------------------------------------------------------------------
  // The student form.

  /** `add_student`'s guard: id and name non-empty after stripping, grade all digits. */
  predicate StudentFormAccepts(sid: string, name: string, grade: string) {
    Strip(sid) != [] && Strip(name) != [] && IsDigits(Strip(grade))
  }

  /**
   * A grade typed as decimal digits (`str(n)` for any `n`) passes the grade
   * test and reaches the backend unchanged by stripping, so as `n` by
   * `DigitsRoundTrip`; an empty grade is refused.
   */
  lemma GradeGuard(sid: string, name: string, grade: string)
    requires IsDigits(grade)
    ensures StudentFormAccepts(sid, name, grade) <==> Strip(sid) != [] && Strip(name) != []
    ensures Strip(grade) == grade
    ensures !StudentFormAccepts(sid, name, "")
  {
    StripDigits(grade);
    assert IsDigits(Strip(grade));
    EmptyGradeRefused(sid, name);
  }

  /**
   * A grade of 2^63 or more passes the form's digit test, but the backend
   * cannot bind it, so no student is added.
   */
  lemma WideGradeRefused(n: nat)
    requires n >= 0x8000_0000_0000_0000
    ensures IsDigits(NatToString(n))
    ensures !FitsInteger(DigitsValue(NatToString(n)))
  {
    DigitsRoundTrip(n);
  }

  lemma EmptyGradeRefused(sid: string, name: string)
    ensures !StudentFormAccepts(sid, name, "")
  {
    assert Strip("") == [];
  }

  /** Decimal digits carry no whitespace to strip. */
  lemma StripDigits(s: string)
    requires IsDigits(s)
    ensures Strip(s) == s
  {
    DigitNotSpace(s[0]);
    DigitNotSpace(s[|s| - 1]);
    StripNoSpace(s);
  }

  lemma DigitNotSpace(c: char)
    requires '0' <= c <= '9'
    ensures !IsSpace(c)
  {
  }

  /**
   * `StudentPage.add_student`: the backend is called only when the guard
   * passes, with the stripped fields and `int(grade)`.
   */
  method SubmitStudent(store: Store, sid: string, name: string, grade: string) returns (called: bool, ok: bool)
    requires store.Valid()
    modifies store
    ensures store.Valid()
    ensures called <==> StudentFormAccepts(sid, name, grade)
    ensures !called ==> !ok && unchanged(store)
    ensures called ==> (ok <==> FitsInteger(DigitsValue(Strip(grade))) && !old(store.Snapshot()).HasStudent(Strip(sid)))
    ensures ok ==> store.Snapshot() == old(store.Snapshot()).(students :=
      old(store.students) + [Student(Strip(sid), Strip(name), DigitsValue(Strip(grade)))])
    ensures !ok ==> store.Snapshot() == old(store.Snapshot())
  {
    var s, n, g := Strip(sid), Strip(name), Strip(grade);
    if s == [] || n == [] || !IsDigits(g) {
      return false, false;
    }
    called := true;
    ok := store.AddStudent(s, n, DigitsValue(g));
  }

  // ---------------------------------------------------------------------------
  // The assessment form and the major-assessment pipeline.

  /** `add_assessment_gui`'s guard: all four fields filled in and a target course selected. */
  predicate AssessmentFormAccepts(name: string, date: string, priority: string, audience: string, selected: seq<nat>) {
    Strip(name) != [] && Strip(date) != [] && priority != "" && audience != "" && |selected| > 0
  }

  /** What the pipeline did after a successful insert. */
  datatype Check =
    | MinorOnly                                   // priority 0: no detection
    | NoConflicts                                 // priority 1, and the detector returned nothing
    | Suggested(student: string, result: Suggestion)  // the suggester ran for the first conflict row's student

  datatype AssessmentOutcome = Rejected | InsertFailed | Inserted(id: nat, check: Check)

  /**
   * `AssessmentPage.add_assessment_gui`. `due` is the entered date read as a
   * day number; `priority` comes from a read-only combobox offering "0" and "1".
   */
  method SubmitAssessment(store: Store, name: string, date: string, due: Day, priority: string,
                          audience: string, selected: seq<nat>, courseIds: seq<nat>)
    returns (outcome: AssessmentOutcome)
    requires store.Valid()
    requires priority == "" || priority == "0" || priority == "1"
    requires forall k :: 0 <= k < |selected| ==> selected[k] < |courseIds|
    modifies store
    ensures store.Valid()
    ensures outcome.Rejected? <==> !AssessmentFormAccepts(name, date, priority, audience, selected)
    ensures outcome.InsertFailed? <==>
      && AssessmentFormAccepts(name, date, priority, audience, selected)
      && !(ParseAudience(audience).Some? && FirstRejected(old(store.courses), SelectedIds(selected, courseIds)) == |selected|)
    ensures !outcome.Inserted? ==> store.Snapshot() == old(store.Snapshot())
    ensures outcome.Inserted? ==>
      && outcome.id == old(store.nextAssessmentId)
      && store.Snapshot() == old(store.Snapshot()).(
           assessments := old(store.assessments) + [Assessment(outcome.id, Strip(name), due,
                            if priority == "1" then Major else Minor, ParseAudience(audience).value)],
           targets := old(store.targets) + TargetsFor(outcome.id, SelectedIds(selected, courseIds)))
    ensures outcome.Inserted? ==>
      var conflicts := DetectAssessmentConflicts(store.Snapshot());
      && (outcome.check.MinorOnly? <==> priority == "0")
      && (outcome.check.NoConflicts? <==> priority == "1" && conflicts == [])
      && (outcome.check.Suggested? ==>
            && conflicts != [] && outcome.check.student == conflicts[0].student
            && (forall c :: c in conflicts ==> !Earlier(conflicts[0].week, c.week))
            && outcome.check.result == Search(store.Snapshot(), outcome.check.student, due, DefaultSearchDays, 1))
    ensures outcome.Inserted? && outcome.check.Suggested? && outcome.check.result.Found? ==>
      var d := outcome.check.result.date;
      d != due && (d < due ==> due - d <= DefaultSearchDays) && (d > due ==> d - due <= DefaultSearchDays)
      && !IsWeekOverloaded(store.Snapshot(), outcome.check.student, d)
  {
    if Strip(name) == [] || Strip(date) == [] || priority == "" || audience == "" {
      return Rejected;
    }
    if |selected| == 0 {
      return Rejected;
    }
    var selectedIds := SelectedIds(selected, courseIds);
    var p := if priority == "1" then 1 else 0;
    var ok, id := store.AddAssessment(Strip(name), due, p, audience, selectedIds);
    if !ok {
      return InsertFailed;
    }
    if p != 1 {
      return Inserted(id, MinorOnly);
    }
    var conflicts := DetectAssessmentConflicts(store.Snapshot());
    if conflicts == [] {
      return Inserted(id, NoConflicts);
    }
    DetectLatestFirst(store.Snapshot());
    var studentId := conflicts[0].student;
    var suggestion := SuggestAlternativeDate(store.Snapshot(), studentId, due, DefaultSearchDays);
    SuggestionMeaning(store.Snapshot(), studentId, due, DefaultSearchDays);
    return Inserted(id, Suggested(studentId, suggestion));
  }

  // ---------------------------------------------------------------------------
  // The enrollment form.

  /** The course ids of the selected listbox positions, in selection order. */
  function SelectedIds(selected: seq<nat>, courseIds: seq<nat>): (ids: seq<nat>)
    requires forall k :: 0 <= k < |selected| ==> selected[k] < |courseIds|
    ensures |ids| == |selected| && forall k :: 0 <= k < |selected| ==> ids[k] == courseIds[selected[k]]
  {
    seq(|selected|, k requires 0 <= k < |selected| => courseIds[selected[k]])
  }

  function EnrollmentsOf(sid: string, cids: seq<nat>): (es: seq<Enrollment>)
    ensures |es| == |cids| && forall k :: 0 <= k < |cids| ==> es[k] == Enrollment(sid, cids[k])
  {
    if cids == [] then [] else EnrollmentsOf(sid, cids[..|cids| - 1]) + [Enrollment(sid, cids[|cids| - 1])]
  }

  lemma EnrollmentsSnoc(sid: string, ids: seq<nat>, k: int)
    requires 0 <= k < |ids|
    ensures EnrollmentsOf(sid, ids[..k + 1]) == EnrollmentsOf(sid, ids[..k]) + [Enrollment(sid, ids[k])]
  {
    assert ids[..k + 1][..k] == ids[..k];
  }

  /**
   * `EnrollmentPage.enroll`: nothing happens without a student or a selection;
   * otherwise the selected courses are enrolled in order until the first
   * failure, and the enrollments made before it stay.
   */
  method EnrollSelected(store: Store, display: string, studentMap: map<string, string>,
                        selected: seq<nat>, courseIds: seq<nat>)
    returns (enrolled: nat, failed: bool)
    requires store.Valid()
    requires display != "" ==> display in studentMap
    requires forall k :: 0 <= k < |selected| ==> selected[k] < |courseIds|
    modifies store
    ensures store.Valid()
    ensures display == "" || selected == [] ==> enrolled == 0 && !failed && unchanged(store)
    ensures display != "" && selected != [] ==>
      var sid := studentMap[display];
      var ids := SelectedIds(selected, courseIds);
      && enrolled <= |ids|
      && (failed <==> enrolled < |ids|)
      && store.Snapshot() == old(store.Snapshot()).(enrollments := old(store.enrollments) + EnrollmentsOf(sid, ids[..enrolled]))
      && (failed ==> !(store.Snapshot().HasStudent(sid) && store.Snapshot().HasCourse(ids[enrolled])
                       && Enrollment(sid, ids[enrolled]) !in store.enrollments))
  {
    enrolled, failed := 0, false;
    if display == "" || selected == [] {
      return;
    }
    var sid := studentMap[display];
    var ids := SelectedIds(selected, courseIds);
    for k := 0 to |selected|
      invariant store.Valid()
      invariant enrolled == k
      invariant store.Snapshot() == old(store.Snapshot()).(enrollments := old(store.enrollments) + EnrollmentsOf(sid, ids[..k]))
    {
      var ok := store.EnrollStudent(sid, courseIds[selected[k]]);
      if !ok {
        failed := true;
        return;
      }
      EnrollmentsSnoc(sid, ids, k);
      enrolled := enrolled + 1;
    }
    assert ids[..|selected|] == ids;
  }
}
