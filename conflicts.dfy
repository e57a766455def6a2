/**
 * The overload detector (`detect_assessment_conflicts`, BackEnd.py lines
 * 188-208) and the conflict detail expander (`get_student_conflict_details`,
 * lines 211-234).
 *
 * Both read the join Enrollments ⋈ AssessmentTargets ⋈ Assessments for a
 * student: one "hit" per (enrollment, target) pair whose course matches.
 * Only priority-1 hits count, grouped by the `%Y-%W` key of the due date.
 * Audience is never consulted.
 */
module Conflicts {
  import opened Calendar
  import opened Seqs
  import opened Schema

  /** `HAVING COUNT(*) >= 4`: a student is overloaded at four major assessments in a week. */
  const Threshold: nat := 4

  /** One row of Enrollments ⋈ AssessmentTargets ⋈ Assessments for one student. */
  datatype Hit = Hit(course: nat, assessment: Assessment)

  /** The targets of course `cid`, each joined with the assessment it names. */
  function TargetHits(assessments: seq<Assessment>, cid: nat, ts: seq<Target>): seq<Hit> {
    if ts == [] then []
    else
      (if ts[0].course == cid then
         match FindAssessment(assessments, ts[0].assessment)
         case Some(a) => [Hit(cid, a)]
         case None => []
       else [])
      + TargetHits(assessments, cid, ts[1..])
  }

  function EnrollmentHits(db: Db, sid: string, es: seq<Enrollment>): seq<Hit> {
    if es == [] then []
    else
      (if es[0].student == sid then TargetHits(db.assessments, es[0].course, db.targets) else [])
      + EnrollmentHits(db, sid, es[1..])
  }

  /** The join rows of student `sid`, in enrollment order, then target order. */
  function Hits(db: Db, sid: string): seq<Hit> {
    EnrollmentHits(db, sid, db.enrollments)
  }

  lemma {:induction false} TargetHitsMembership(assessments: seq<Assessment>, cid: nat, ts: seq<Target>, h: Hit)
    ensures h in TargetHits(assessments, cid, ts) <==>
            h.course == cid && Target(h.assessment.id, cid) in ts
            && FindAssessment(assessments, h.assessment.id) == Some(h.assessment)
  {
    if ts != [] {
      TargetHitsMembership(assessments, cid, ts[1..], h);
      assert ts == [ts[0]] + ts[1..];
    }
  }

  lemma {:induction false} EnrollmentHitsMembership(db: Db, sid: string, es: seq<Enrollment>, h: Hit)
    ensures h in EnrollmentHits(db, sid, es) <==>
            Enrollment(sid, h.course) in es && h in TargetHits(db.assessments, h.course, db.targets)
  {
    if es != [] {
      EnrollmentHitsMembership(db, sid, es[1..], h);
      TargetHitsMembership(db.assessments, es[0].course, db.targets, h);
      assert es == [es[0]] + es[1..];
    }
  }

  /** A hit is exactly an enrollment of the student, a target of that course and the assessment it names. */
  lemma HitsMembership(db: Db, sid: string, h: Hit)
    ensures h in Hits(db, sid) <==>
            Enrollment(sid, h.course) in db.enrollments && Target(h.assessment.id, h.course) in db.targets
            && FindAssessment(db.assessments, h.assessment.id) == Some(h.assessment)
  {
    EnrollmentHitsMembership(db, sid, db.enrollments, h);
    TargetHitsMembership(db.assessments, h.course, db.targets, h);
  }

  predicate MajorIn(h: Hit, w: WeekKey) {
    h.assessment.priority == Major && WeekOf(h.assessment.due) == w
  }

  /** `COUNT(*)` of the group `w`: hits of a major assessment due in week `w`. */
  function HitsIn(hits: seq<Hit>, w: WeekKey): nat {
    if hits == [] then 0 else (if MajorIn(hits[0], w) then 1 else 0) + HitsIn(hits[1..], w)
  }

  /** The priority-1 count of student `sid` in week `w`. */
  function MajorCount(db: Db, sid: string, w: WeekKey): nat {
    HitsIn(Hits(db, sid), w)
  }

  lemma {:induction false} HitsInPositive(hits: seq<Hit>, h: Hit, w: WeekKey)
    requires h in hits && MajorIn(h, w)
    ensures HitsIn(hits, w) >= 1
  {
    if hits[0] != h {
      HitsInPositive(hits[1..], h, w);
    }
  }

  lemma {:induction false} HitsInTwo(hits: seq<Hit>, h1: Hit, h2: Hit, w: WeekKey)
    requires h1 in hits && h2 in hits && h1 != h2 && MajorIn(h1, w) && MajorIn(h2, w)
    ensures HitsIn(hits, w) >= 2
  {
    if hits[0] == h1 {
      HitsInPositive(hits[1..], h2, w);
    } else if hits[0] == h2 {
      HitsInPositive(hits[1..], h1, w);
    } else {
      HitsInTwo(hits[1..], h1, h2, w);
    }
  }

  /** The weeks that hold at least one major hit, each once. */
  function MajorWeeks(hits: seq<Hit>): (ws: seq<WeekKey>)
    ensures NoDup(ws)
    ensures forall w :: w in ws <==> HitsIn(hits, w) > 0
    ensures forall w :: w in ws ==> 0 <= w.week <= 53
  {
    if hits == [] then []
    else
      var rest := MajorWeeks(hits[1..]);
      var a := hits[0].assessment;
      if a.priority == Major && WeekOf(a.due) !in rest then
        WeekOfRange(a.due);
        NoDupAppend([WeekOf(a.due)], rest);
        [WeekOf(a.due)] + rest
      else rest
  }

  /** One output row of the detector: `StudentID, Name, Week, MajorCount`. */
  datatype Conflict = Conflict(student: string, name: string, week: WeekKey, majorCount: nat)

  /** The groups of one student that reach the threshold. */
  function StudentConflicts(s: Student, hits: seq<Hit>, weeks: seq<WeekKey>): (r: seq<Conflict>)
    ensures forall c :: c in r <==>
      c.student == s.id && c.name == s.name && c.week in weeks
      && c.majorCount == HitsIn(hits, c.week) && c.majorCount >= Threshold
  {
    if weeks == [] then []
    else
      var n := HitsIn(hits, weeks[0]);
      (if n >= Threshold then [Conflict(s.id, s.name, weeks[0], n)] else [])
      + StudentConflicts(s, hits, weeks[1..])
  }

  /** `GROUP BY s.StudentID, Week HAVING COUNT(*) >= 4`, student by student. */
  function GroupConflicts(db: Db, ss: seq<Student>): (r: seq<Conflict>)
    ensures forall c :: c in r ==> 0 <= c.week.week <= 53
    ensures forall c :: c in r <==>
      (exists s :: s in ss && s.id == c.student && s.name == c.name)
      && c.majorCount == MajorCount(db, c.student, c.week) && c.majorCount >= Threshold
  {
    if ss == [] then []
    else
      var hits := Hits(db, ss[0].id);
      var mine := StudentConflicts(ss[0], hits, MajorWeeks(hits));
      var rest := GroupConflicts(db, ss[1..]);
      assert ss == [ss[0]] + ss[1..];
      mine + rest
  }

  /** Sort key for `ORDER BY Week DESC`. */
  function LaterFirst(c: Conflict): int {
    -Rank(c.week)
  }

  lemma LaterFirstMeansDescending(r: seq<Conflict>)
    requires SortedBy(r, LaterFirst)
    requires forall c :: c in r ==> 0 <= c.week.week <= 53
    ensures forall i, j :: 0 <= i < j < |r| ==> !Earlier(r[i].week, r[j].week)
  {
    forall i, j | 0 <= i < j < |r| ensures !Earlier(r[i].week, r[j].week) {
      assert LaterFirst(r[i]) <= LaterFirst(r[j]);
      RankOrder(r[i].week, r[j].week);
    }
  }

  /**
   * `detect_assessment_conflicts`: every (student, week) group of priority-1
   * join rows whose count reaches the threshold, latest week first.
   */
  function DetectAssessmentConflicts(db: Db): (r: seq<Conflict>)
    ensures forall i, j :: 0 <= i < j < |r| ==> !Earlier(r[i].week, r[j].week)
    ensures forall c :: c in r ==>
      c.majorCount >= Threshold && c.majorCount == MajorCount(db, c.student, c.week)
      && exists s :: s in db.students && s.id == c.student && s.name == c.name
  {
    var groups := GroupConflicts(db, db.students);
    var r := SortBy(groups, LaterFirst);
    SortedGroupsSound(db, groups, r);
    r
  }

  /** The first reported row lies in the latest reported week: no row is later. */
  lemma DetectLatestFirst(db: Db)
    requires DetectAssessmentConflicts(db) != []
    ensures var r := DetectAssessmentConflicts(db);
      forall c :: c in r ==> !Earlier(r[0].week, c.week)
  {
    var r := DetectAssessmentConflicts(db);
    forall c | c in r ensures !Earlier(r[0].week, c.week) {
      var j :| 0 <= j < |r| && r[j] == c;
    }
  }

  lemma SortedGroupsSound(db: Db, groups: seq<Conflict>, r: seq<Conflict>)
    requires groups == GroupConflicts(db, db.students)
    requires multiset(r) == multiset(groups) && SortedBy(r, LaterFirst)
    ensures forall i, j :: 0 <= i < j < |r| ==> !Earlier(r[i].week, r[j].week)
    ensures forall c :: c in r ==>
      c.majorCount >= Threshold && c.majorCount == MajorCount(db, c.student, c.week)
      && exists s :: s in db.students && s.id == c.student && s.name == c.name
  {
    forall c | c in r ensures c in groups {
      assert c in multiset(groups);
    }
    LaterFirstMeansDescending(r);
  }

  /** Detector membership: a (student, week) pair is reported iff the student exists and has at least four major hits that week. */
  lemma DetectMembership(db: Db, sid: string, w: WeekKey)
    ensures (exists c :: c in DetectAssessmentConflicts(db) && c.student == sid && c.week == w) <==>
            db.HasStudent(sid) && MajorCount(db, sid, w) >= Threshold
  {
    if db.HasStudent(sid) && MajorCount(db, sid, w) >= Threshold {
      var s :| s in db.students && s.id == sid;
      var c := Conflict(sid, s.name, w, MajorCount(db, sid, w));
      var groups := GroupConflicts(db, db.students);
      assert c in groups;
      assert c in multiset(DetectAssessmentConflicts(db));
    }
  }

  lemma {:induction false} StudentConflictsNoDup(s: Student, hits: seq<Hit>, weeks: seq<WeekKey>)
    requires NoDup(weeks)
    ensures NoDup(StudentConflicts(s, hits, weeks))
  {
    if weeks != [] {
      NoDupTail(weeks);
      StudentConflictsNoDup(s, hits, weeks[1..]);
      var n := HitsIn(hits, weeks[0]);
      var head: seq<Conflict> := if n >= Threshold then [Conflict(s.id, s.name, weeks[0], n)] else [];
      NoDupAppend(head, StudentConflicts(s, hits, weeks[1..]));
    }
  }

  lemma {:induction false} GroupConflictsNoDup(db: Db, ss: seq<Student>)
    requires DistinctBy(ss, StudentKey)
    ensures NoDup(GroupConflicts(db, ss))
  {
    if ss != [] {
      var rest := ss[1..];
      assert DistinctBy(rest, StudentKey) by {
        forall i, j | 0 <= i < j < |rest| ensures StudentKey(rest[i]) != StudentKey(rest[j]) {
          assert rest[i] == ss[i + 1] && rest[j] == ss[j + 1];
        }
      }
      GroupConflictsNoDup(db, rest);
      var hits := Hits(db, ss[0].id);
      StudentConflictsNoDup(ss[0], hits, MajorWeeks(hits));
      var mine := StudentConflicts(ss[0], hits, MajorWeeks(hits));
      forall c | c in mine ensures c !in GroupConflicts(db, rest) {
        forall s | s in rest ensures s.id != c.student {
          var k :| 0 <= k < |rest| && rest[k] == s;
          assert StudentKey(ss[0]) != StudentKey(ss[k + 1]);
        }
      }
      NoDupAppend(mine, GroupConflicts(db, rest));
    }
  }

  /** In a valid store a reported row is determined by its student and week. */
  lemma ConflictKeyDetermines(db: Db, c1: Conflict, c2: Conflict)
    requires db.Valid()
    requires c1 in DetectAssessmentConflicts(db) && c2 in DetectAssessmentConflicts(db)
    ensures c1.student == c2.student && c1.week == c2.week ==> c1 == c2
  {
    if c1.student == c2.student && c1.week == c2.week {
      var s1 :| s1 in db.students && s1.id == c1.student && s1.name == c1.name;
      var s2 :| s2 in db.students && s2.id == c2.student && s2.name == c2.name;
      FindStudentUnique(db.students, s1);
      FindStudentUnique(db.students, s2);
    }
  }

  /** In a valid store no (student, week) pair is reported twice. */
  lemma DetectPairsUnique(db: Db)
    requires db.Valid()
    ensures var r := DetectAssessmentConflicts(db);
            forall i, j :: 0 <= i < j < |r| ==> r[i].student != r[j].student || r[i].week != r[j].week
  {
    var groups := GroupConflicts(db, db.students);
    GroupConflictsNoDup(db, db.students);
    SortByNoDup(groups, LaterFirst);
    var r := DetectAssessmentConflicts(db);
    forall i, j | 0 <= i < j < |r| ensures r[i].student != r[j].student || r[i].week != r[j].week {
      ConflictKeyDetermines(db, r[i], r[j]);
    }
  }

  /** An assessment that targets two courses the student takes is counted twice. */
  lemma TwoCoursesTwoHits(db: Db, sid: string, a: Assessment, c1: nat, c2: nat)
    requires DistinctBy(db.assessments, AssessmentKey) && a in db.assessments && a.priority == Major
    requires c1 != c2
    requires Enrollment(sid, c1) in db.enrollments && Enrollment(sid, c2) in db.enrollments
    requires Target(a.id, c1) in db.targets && Target(a.id, c2) in db.targets
    ensures MajorCount(db, sid, WeekOf(a.due)) >= 2
  {
    FindAssessmentUnique(db.assessments, a);
    HitsMembership(db, sid, Hit(c1, a));
    HitsMembership(db, sid, Hit(c2, a));
    HitsInTwo(Hits(db, sid), Hit(c1, a), Hit(c2, a), WeekOf(a.due));
  }

  // ---------------------------------------------------------------------------
  // Audience is never consulted.

  function SetAudience(assessments: seq<Assessment>, aud: Audience): (r: seq<Assessment>)
    ensures |r| == |assessments|
  {
    if assessments == [] then []
    else [assessments[0].(audience := aud)] + SetAudience(assessments[1..], aud)
  }

  /** The same store with every assessment's audience replaced by `aud`. */
  function WithAudience(db: Db, aud: Audience): Db {
    db.(assessments := SetAudience(db.assessments, aud))
  }

  function RelabelHits(hits: seq<Hit>, aud: Audience): seq<Hit> {
    if hits == [] then []
    else [hits[0].(assessment := hits[0].assessment.(audience := aud))] + RelabelHits(hits[1..], aud)
  }

  lemma {:induction false} RelabelAppend(a: seq<Hit>, b: seq<Hit>, aud: Audience)
    ensures RelabelHits(a + b, aud) == RelabelHits(a, aud) + RelabelHits(b, aud)
  {
    if a != [] {
      assert (a + b)[0] == a[0] && (a + b)[1..] == a[1..] + b;
      RelabelAppend(a[1..], b, aud);
      var h := [a[0].(assessment := a[0].assessment.(audience := aud))];
      assert RelabelHits(a + b, aud) == h + RelabelHits(a[1..] + b, aud);
      assert RelabelHits(a, aud) == h + RelabelHits(a[1..], aud);
    } else {
      assert a + b == b;
    }
  }

  lemma {:induction false} FindSetAudience(assessments: seq<Assessment>, aud: Audience, id: nat)
    ensures FindAssessment(SetAudience(assessments, aud), id) ==
            match FindAssessment(assessments, id)
            case Some(a) => Some(a.(audience := aud))
            case None => None
  {
    if assessments != [] {
      FindSetAudience(assessments[1..], aud, id);
    }
  }

  lemma {:induction false} TargetHitsRelabel(assessments: seq<Assessment>, aud: Audience, cid: nat, ts: seq<Target>)
    ensures TargetHits(SetAudience(assessments, aud), cid, ts) == RelabelHits(TargetHits(assessments, cid, ts), aud)
  {
    if ts != [] {
      TargetHitsRelabel(assessments, aud, cid, ts[1..]);
      FindSetAudience(assessments, aud, ts[0].assessment);
      var head: seq<Hit> :=
        if ts[0].course == cid then
          match FindAssessment(assessments, ts[0].assessment)
          case Some(a) => [Hit(cid, a)]
          case None => []
        else [];
      RelabelAppend(head, TargetHits(assessments, cid, ts[1..]), aud);
    }
  }

  lemma {:induction false} EnrollmentHitsRelabel(db: Db, aud: Audience, sid: string, es: seq<Enrollment>)
    ensures EnrollmentHits(WithAudience(db, aud), sid, es) == RelabelHits(EnrollmentHits(db, sid, es), aud)
  {
    if es != [] {
      EnrollmentHitsRelabel(db, aud, sid, es[1..]);
      TargetHitsRelabel(db.assessments, aud, es[0].course, db.targets);
      var head := if es[0].student == sid then TargetHits(db.assessments, es[0].course, db.targets) else [];
      RelabelAppend(head, EnrollmentHits(db, sid, es[1..]), aud);
    }
  }

  lemma {:induction false} HitsInRelabel(hits: seq<Hit>, aud: Audience, w: WeekKey)
    ensures HitsIn(RelabelHits(hits, aud), w) == HitsIn(hits, w)
  {
    if hits != [] {
      HitsInRelabel(hits[1..], aud, w);
    }
  }

  lemma {:induction false} MajorWeeksRelabel(hits: seq<Hit>, aud: Audience)
    ensures MajorWeeks(RelabelHits(hits, aud)) == MajorWeeks(hits)
  {
    if hits != [] {
      MajorWeeksRelabel(hits[1..], aud);
    }
  }

  /** Changing audiences changes no student's major count. */
  lemma MajorCountIgnoresAudience(db: Db, aud: Audience, sid: string, w: WeekKey)
    ensures MajorCount(WithAudience(db, aud), sid, w) == MajorCount(db, sid, w)
  {
    EnrollmentHitsRelabel(db, aud, sid, db.enrollments);
    HitsInRelabel(Hits(db, sid), aud, w);
  }

  lemma {:induction false} StudentConflictsSameCounts(s: Student, h1: seq<Hit>, h2: seq<Hit>, weeks: seq<WeekKey>)
    requires forall w :: HitsIn(h1, w) == HitsIn(h2, w)
    ensures StudentConflicts(s, h1, weeks) == StudentConflicts(s, h2, weeks)
  {
    if weeks != [] {
      StudentConflictsSameCounts(s, h1, h2, weeks[1..]);
    }
  }

  lemma {:induction false} GroupConflictsIgnoreAudience(db: Db, aud: Audience, ss: seq<Student>)
    ensures GroupConflicts(WithAudience(db, aud), ss) == GroupConflicts(db, ss)
  {
    if ss != [] {
      GroupConflictsIgnoreAudience(db, aud, ss[1..]);
      var hits := Hits(db, ss[0].id);
      EnrollmentHitsRelabel(db, aud, ss[0].id, db.enrollments);
      MajorWeeksRelabel(hits, aud);
      forall w ensures HitsIn(RelabelHits(hits, aud), w) == HitsIn(hits, w) {
        HitsInRelabel(hits, aud, w);
      }
      StudentConflictsSameCounts(ss[0], RelabelHits(hits, aud), hits, MajorWeeks(hits));
    }
  }

  /** The detector's output does not depend on any assessment's audience. */
  lemma DetectIgnoresAudience(db: Db, aud: Audience)
    ensures DetectAssessmentConflicts(WithAudience(db, aud)) == DetectAssessmentConflicts(db)
  {
    GroupConflictsIgnoreAudience(db, aud, db.students);
  }

  // ---------------------------------------------------------------------------
  // The conflict detail expander.

  /** One output row of the expander: the assessment, its course and the course's teacher name. */
  datatype DetailRow = DetailRow(assessment: Assessment, course: Course, teacher: Option<string>)

  /** `LEFT JOIN Teacher`: the name of the course's teacher, absent when it has none. */
  function TeacherNameOf(db: Db, c: Course): Option<string> {
    match c.teacher
    case None => None
    case Some(tid) =>
      match FindTeacher(db.teachers, tid)
      case Some(t) => Some(t.name)
      case None => None
  }

  /** `JOIN Courses c ON e.CourseID = c.CourseID LEFT JOIN Teacher` applied to each hit. */
  function DetailRows(db: Db, hits: seq<Hit>): seq<DetailRow> {
    if hits == [] then []
    else
      (match FindCourse(db.courses, hits[0].course)
       case Some(c) => [DetailRow(hits[0].assessment, c, TeacherNameOf(db, c))]
       case None => [])
      + DetailRows(db, hits[1..])
  }

  lemma {:induction false} DetailRowsFromHits(db: Db, hits: seq<Hit>, x: DetailRow)
    requires x in DetailRows(db, hits)
    ensures Hit(x.course.id, x.assessment) in hits && x.course in db.courses
    ensures x.teacher == TeacherNameOf(db, x.course)
  {
    if hits != [] {
      var head: seq<DetailRow> :=
        match FindCourse(db.courses, hits[0].course)
        case Some(c) => [DetailRow(hits[0].assessment, c, TeacherNameOf(db, c))]
        case None => [];
      if x !in head {
        DetailRowsFromHits(db, hits[1..], x);
      }
    }
  }

  /** The course join drops a hit only when its course is missing: every other hit yields its row. */
  lemma {:induction false} DetailRowsComplete(db: Db, hits: seq<Hit>, h: Hit)
    requires h in hits && FindCourse(db.courses, h.course).Some?
    ensures var c := FindCourse(db.courses, h.course).value;
      DetailRow(h.assessment, c, TeacherNameOf(db, c)) in DetailRows(db, hits)
  {
    if hits[0] != h {
      assert h in hits[1..];
      DetailRowsComplete(db, hits[1..], h);
    }
  }

  /** With every hit's course present, the course join keeps exactly one row per hit. */
  lemma {:induction false} DetailRowsCount(db: Db, hits: seq<Hit>)
    requires forall h :: h in hits ==> db.HasCourse(h.course)
    ensures |DetailRows(db, hits)| == |hits|
  {
    if hits != [] {
      assert hits[0] in hits;
      assert FindCourse(db.courses, hits[0].course).Some?;
      DetailRowsCount(db, hits[1..]);
    }
  }

  predicate RowMajorIn(r: DetailRow, w: WeekKey) {
    r.assessment.priority == Major && WeekOf(r.assessment.due) == w
  }

  /** `WHERE strftime('%Y-%W', a.DueDate) = ? AND a.Priority = 1`. */
  function RowsIn(rows: seq<DetailRow>, w: WeekKey): (r: seq<DetailRow>)
    ensures forall x :: x in r <==> x in rows && RowMajorIn(x, w)
  {
    if rows == [] then []
    else (if RowMajorIn(rows[0], w) then [rows[0]] else []) + RowsIn(rows[1..], w)
  }

  /** Sort key for `ORDER BY a.DueDate`. */
  function DueKey(r: DetailRow): int {
    r.assessment.due
  }

  /**
   * `get_student_conflict_details`: the priority-1 assessments reached through
   * the student's enrollments and due in week `w`, earliest due date first.
   */
  function ConflictDetails(db: Db, sid: string, w: WeekKey): (r: seq<DetailRow>)
    ensures forall i, j :: 0 <= i < j < |r| ==> r[i].assessment.due <= r[j].assessment.due
    ensures forall x :: x in r ==>
      x.assessment.priority == Major && WeekOf(x.assessment.due) == w
      && Enrollment(sid, x.course.id) in db.enrollments
      && Target(x.assessment.id, x.course.id) in db.targets
      && x.assessment in db.assessments && x.course in db.courses
      && x.teacher == TeacherNameOf(db, x.course)
  {
    var hits := Hits(db, sid);
    var rows := RowsIn(DetailRows(db, hits), w);
    var r := SortBy(rows, DueKey);
    assert forall i, j :: 0 <= i < j < |r| ==> DueKey(r[i]) <= DueKey(r[j]);
    DetailsSound(db, sid, hits, rows, r, w);
    r
  }

  lemma DetailsSound(db: Db, sid: string, hits: seq<Hit>, rows: seq<DetailRow>, r: seq<DetailRow>, w: WeekKey)
    requires hits == Hits(db, sid) && rows == RowsIn(DetailRows(db, hits), w)
    requires multiset(r) == multiset(rows)
    ensures forall x :: x in r ==>
      x.assessment.priority == Major && WeekOf(x.assessment.due) == w
      && Enrollment(sid, x.course.id) in db.enrollments
      && Target(x.assessment.id, x.course.id) in db.targets
      && x.assessment in db.assessments && x.course in db.courses
      && x.teacher == TeacherNameOf(db, x.course)
  {
    forall x | x in r
      ensures x.assessment.priority == Major && WeekOf(x.assessment.due) == w
      ensures Enrollment(sid, x.course.id) in db.enrollments
      ensures Target(x.assessment.id, x.course.id) in db.targets
      ensures x.assessment in db.assessments && x.course in db.courses
      ensures x.teacher == TeacherNameOf(db, x.course)
    {
      assert x in multiset(rows);
      DetailRowSound(db, sid, hits, x);
    }
  }

  lemma DetailRowSound(db: Db, sid: string, hits: seq<Hit>, x: DetailRow)
    requires hits == Hits(db, sid) && x in DetailRows(db, hits)
    ensures Enrollment(sid, x.course.id) in db.enrollments
    ensures Target(x.assessment.id, x.course.id) in db.targets
    ensures x.assessment in db.assessments && x.course in db.courses
    ensures x.teacher == TeacherNameOf(db, x.course)
  {
    DetailRowsFromHits(db, hits, x);
    HitsMembership(db, sid, Hit(x.course.id, x.assessment));
  }

  lemma {:induction false} RowsInCountsHits(db: Db, hits: seq<Hit>, w: WeekKey)
    requires forall h :: h in hits ==> db.HasCourse(h.course)
    requires DistinctBy(db.courses, CourseKey)
    ensures |RowsIn(DetailRows(db, hits), w)| == HitsIn(hits, w)
  {
    if hits != [] {
      RowsInCountsHits(db, hits[1..], w);
      var c := FindCourse(db.courses, hits[0].course);
      assert c.Some?;
      var head := [DetailRow(hits[0].assessment, c.value, TeacherNameOf(db, c.value))];
      assert DetailRows(db, hits) == head + DetailRows(db, hits[1..]);
      assert RowsIn(head + DetailRows(db, hits[1..]), w) == RowsIn(head, w) + RowsIn(DetailRows(db, hits[1..]), w) by {
        RowsInAppend(head, DetailRows(db, hits[1..]), w);
      }
    }
  }

  lemma {:induction false} RowsInAppend(a: seq<DetailRow>, b: seq<DetailRow>, w: WeekKey)
    ensures RowsIn(a + b, w) == RowsIn(a, w) + RowsIn(b, w)
  {
    if a != [] {
      assert (a + b)[0] == a[0] && (a + b)[1..] == a[1..] + b;
      RowsInAppend(a[1..], b, w);
      var h := if RowMajorIn(a[0], w) then [a[0]] else [];
      assert RowsIn(a + b, w) == h + RowsIn(a[1..] + b, w);
      assert RowsIn(a, w) == h + RowsIn(a[1..], w);
    } else {
      assert a + b == b;
    }
  }

  /** Details match the detector: the expander lists exactly as many rows as the group's count. */
  lemma DetailsCountMatchesDetector(db: Db, sid: string, w: WeekKey)
    requires db.Valid()
    ensures |ConflictDetails(db, sid, w)| == MajorCount(db, sid, w)
  {
    var hits := Hits(db, sid);
    forall h | h in hits ensures db.HasCourse(h.course) {
      HitsMembership(db, sid, h);
    }
    RowsInCountsHits(db, hits, w);
  }

  /** Every row the detector reports is backed by exactly `MajorCount` detail rows. */
  lemma DetectorRowsHaveDetails(db: Db)
    requires db.Valid()
    ensures forall c :: c in DetectAssessmentConflicts(db) ==>
      |ConflictDetails(db, c.student, c.week)| == c.majorCount
  {
    forall c | c in DetectAssessmentConflicts(db)
      ensures |ConflictDetails(db, c.student, c.week)| == c.majorCount
    {
      DetailsCountMatchesDetector(db, c.student, c.week);
    }
  }
}
