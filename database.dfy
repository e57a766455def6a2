/**
 * The store operations (BackEnd.py lines 64-186) over the schema of lines
 * 13-56, as a class whose fields are the six tables and the AUTOINCREMENT
 * counters of the three tables that have one.
 *
 * An insert that violates a constraint raises `sqlite3.IntegrityError` and
 * leaves the tables as they were; the methods report this as `ok == false`.
 * Deletes never fail: deleting a missing key is a no-op, and the foreign-key
 * actions (`ON DELETE CASCADE`, `ON DELETE SET NULL`) are applied with them.
 */
module Database {
  import opened Calendar
  import opened Seqs
  import opened Schema

  // ---------------------------------------------------------------------------
  // The rows each DELETE statement keeps, with the rows its cascades keep.

  function TeachersWithout(ts: seq<Teacher>, id: nat): (r: seq<Teacher>)
    ensures forall t :: t in r <==> t in ts && t.id != id
  {
    Filter(ts, (t: Teacher) => t.id != id)
  }

  function CoursesWithout(cs: seq<Course>, id: nat): (r: seq<Course>)
    ensures forall c :: c in r <==> c in cs && c.id != id
  {
    Filter(cs, (c: Course) => c.id != id)
  }

  function StudentsWithout(ss: seq<Student>, id: string): (r: seq<Student>)
    ensures forall s :: s in r <==> s in ss && s.id != id
  {
    Filter(ss, (s: Student) => s.id != id)
  }

  function AssessmentsWithout(as_: seq<Assessment>, id: nat): (r: seq<Assessment>)
    ensures forall a :: a in r <==> a in as_ && a.id != id
  {
    Filter(as_, (a: Assessment) => a.id != id)
  }

  function EnrollmentsWithoutStudent(es: seq<Enrollment>, sid: string): (r: seq<Enrollment>)
    ensures forall e :: e in r <==> e in es && e.student != sid
  {
    Filter(es, (e: Enrollment) => e.student != sid)
  }

  function EnrollmentsWithoutCourse(es: seq<Enrollment>, cid: nat): (r: seq<Enrollment>)
    ensures forall e :: e in r <==> e in es && e.course != cid
  {
    Filter(es, (e: Enrollment) => e.course != cid)
  }

  function TargetsWithoutCourse(ts: seq<Target>, cid: nat): (r: seq<Target>)
    ensures forall t :: t in r <==> t in ts && t.course != cid
  {
    Filter(ts, (t: Target) => t.course != cid)
  }

  function TargetsWithoutAssessment(ts: seq<Target>, aid: nat): (r: seq<Target>)
    ensures forall t :: t in r <==> t in ts && t.assessment != aid
  {
    Filter(ts, (t: Target) => t.assessment != aid)
  }

  /** `ON DELETE SET NULL`: courses taught by teacher `id` lose their teacher; nothing else changes. */
  function ClearTeacher(cs: seq<Course>, id: nat): (r: seq<Course>)
    ensures |r| == |cs|
    ensures forall i :: 0 <= i < |cs| ==>
      r[i] == if cs[i].teacher == Some(id) then cs[i].(teacher := None) else cs[i]
  {
    if cs == [] then []
    else [if cs[0].teacher == Some(id) then cs[0].(teacher := None) else cs[0]] + ClearTeacher(cs[1..], id)
  }

  /** One `AssessmentTargets` row per course id, in list order. */
  function TargetsFor(aid: nat, cids: seq<nat>): (r: seq<Target>)
    ensures |r| == |cids|
    ensures forall i :: 0 <= i < |cids| ==> r[i] == Target(aid, cids[i])
  {
    if cids == [] then [] else TargetsFor(aid, cids[..|cids| - 1]) + [Target(aid, cids[|cids| - 1])]
  }

  /** A course is targeted exactly when its id was given. */
  lemma TargetsForMembership(aid: nat, cids: seq<nat>, x: nat)
    ensures Target(aid, x) in TargetsFor(aid, cids) <==> x in cids
  {
    var r := TargetsFor(aid, cids);
    if x in cids {
      var i :| 0 <= i < |cids| && cids[i] == x;
      assert r[i] == Target(aid, x);
    }
  }

  /**
   * The position of the first target insert that fails, or `|cids|` when none
   * does: a course id that names no course breaks the foreign key, and one
   * that repeats an earlier id breaks the primary key (AssessmentID, CourseID).
   */
  function FirstRejected(courses: seq<Course>, cids: seq<nat>): (k: nat)
    ensures k <= |cids|
    ensures forall i :: 0 <= i < k ==> CourseIn(courses, cids[i]) && cids[i] !in cids[..i]
    ensures k < |cids| ==> !CourseIn(courses, cids[k]) || cids[k] in cids[..k]
  {
    if cids == [] then 0
    else
      var init := cids[..|cids| - 1];
      var k := FirstRejected(courses, init);
      if k < |init| then
        assert cids[..k] == init[..k];
        assert forall i :: 0 <= i < k ==> cids[..i] == init[..i];
        k
      else
        assert init == cids[..|init|];
        |init| + (if CourseIn(courses, cids[|init|]) && cids[|init|] !in init then 1 else 0)
  }

  // ---------------------------------------------------------------------------
  // The store transitions as functions of the old tables.

  /** `DELETE FROM Teacher`, with `SET NULL` on the courses it taught. */
  function DeleteTeacherDb(db: Db, id: nat): (r: Db)
    ensures !r.HasTeacher(id)
    ensures forall c :: c in r.courses ==> c.teacher != Some(id)
    ensures r.students == db.students && r.enrollments == db.enrollments
    ensures r.assessments == db.assessments && r.targets == db.targets
  {
    db.(teachers := TeachersWithout(db.teachers, id), courses := ClearTeacher(db.courses, id))
  }

  /** `DELETE FROM Courses`, cascading to its enrollments and targets. */
  function DeleteCourseDb(db: Db, id: nat): (r: Db)
    ensures !r.HasCourse(id)
    ensures forall e :: e in r.enrollments <==> e in db.enrollments && e.course != id
    ensures forall t :: t in r.targets <==> t in db.targets && t.course != id
    ensures r.teachers == db.teachers && r.students == db.students && r.assessments == db.assessments
  {
    db.(courses := CoursesWithout(db.courses, id),
        enrollments := EnrollmentsWithoutCourse(db.enrollments, id),
        targets := TargetsWithoutCourse(db.targets, id))
  }

  /** `DELETE FROM Students`, cascading to its enrollments. */
  function DeleteStudentDb(db: Db, id: string): (r: Db)
    ensures !r.HasStudent(id)
    ensures forall e :: e in r.enrollments <==> e in db.enrollments && e.student != id
    ensures r.teachers == db.teachers && r.courses == db.courses
    ensures r.assessments == db.assessments && r.targets == db.targets
  {
    db.(students := StudentsWithout(db.students, id),
        enrollments := EnrollmentsWithoutStudent(db.enrollments, id))
  }

  /** `DELETE FROM Assessments`, cascading to its targets. */
  function DeleteAssessmentDb(db: Db, id: nat): (r: Db)
    ensures !r.HasAssessment(id)
    ensures forall t :: t in r.targets <==> t in db.targets && t.assessment != id
    ensures r.teachers == db.teachers && r.courses == db.courses
    ensures r.students == db.students && r.enrollments == db.enrollments
  {
    db.(assessments := AssessmentsWithout(db.assessments, id),
        targets := TargetsWithoutAssessment(db.targets, id))
  }

  // ---------------------------------------------------------------------------
  // Each transition keeps the schema's constraints.

  lemma ClearTeacherKeepsIds(cs: seq<Course>, id: nat)
    requires DistinctBy(cs, CourseKey)
    ensures DistinctBy(ClearTeacher(cs, id), CourseKey)
    ensures forall cid :: CourseIn(ClearTeacher(cs, id), cid) <==> CourseIn(cs, cid)
  {
    var r := ClearTeacher(cs, id);
    forall i, j | 0 <= i < j < |r| ensures CourseKey(r[i]) != CourseKey(r[j]) {
      assert CourseKey(cs[i]) != CourseKey(cs[j]);
    }
    forall cid | CourseIn(cs, cid)
      ensures CourseIn(r, cid)
    {
      var c :| c in cs && c.id == cid;
      var k :| 0 <= k < |cs| && cs[k] == c;
      assert r[k] in r;
    }
  }

  /** Deleting a teacher keeps a valid store valid. */
  lemma DeleteTeacherKeepsValid(db: Db, id: nat)
    requires db.Valid()
    ensures DeleteTeacherDb(db, id).Valid()
  {
    var r := DeleteTeacherDb(db, id);
    FilterDistinctBy(db.teachers, (t: Teacher) => t.id != id, TeacherKey);
    FilterDistinctBy(db.teachers, (t: Teacher) => t.id != id, TeacherNameKey);
    ClearTeacherKeepsIds(db.courses, id);
    forall c | c in r.courses && c.teacher.Some? ensures r.HasTeacher(c.teacher.value) {
      var k :| 0 <= k < |r.courses| && r.courses[k] == c;
      var old_ := db.courses[k];
      assert old_ in db.courses && old_.teacher == c.teacher;
      var t :| t in db.teachers && t.id == c.teacher.value;
      assert t in r.teachers;
    }
    forall e | e in r.enrollments ensures r.HasCourse(e.course) {
      assert db.HasCourse(e.course);
    }
    forall t | t in r.targets ensures r.HasCourse(t.course) {
      assert db.HasCourse(t.course);
    }
  }

  /** Deleting a course keeps a valid store valid. */
  lemma DeleteCourseKeepsValid(db: Db, id: nat)
    requires db.Valid()
    ensures DeleteCourseDb(db, id).Valid()
  {
    FilterDistinctBy(db.courses, (c: Course) => c.id != id, CourseKey);
    FilterNoDup(db.enrollments, (e: Enrollment) => e.course != id);
    FilterNoDup(db.targets, (t: Target) => t.course != id);
    DeleteCourseKeepsRefs(db, id);
  }

  /** After a course is deleted, every enrollment and every target still names rows that exist. */
  lemma DeleteCourseKeepsRefs(db: Db, id: nat)
    requires db.Valid()
    ensures var r := DeleteCourseDb(db, id);
      && (forall e :: e in r.enrollments ==> r.HasStudent(e.student) && r.HasCourse(e.course))
      && (forall t :: t in r.targets ==> r.HasAssessment(t.assessment) && r.HasCourse(t.course))
  {
    var r := DeleteCourseDb(db, id);
    forall e | e in r.enrollments ensures r.HasCourse(e.course) {
      var c :| c in db.courses && c.id == e.course;
      assert c in r.courses;
    }
    forall t | t in r.targets ensures r.HasCourse(t.course) {
      var c :| c in db.courses && c.id == t.course;
      assert c in r.courses;
    }
  }

  /** Deleting a student keeps a valid store valid. */
  lemma DeleteStudentKeepsValid(db: Db, id: string)
    requires db.Valid()
    ensures DeleteStudentDb(db, id).Valid()
  {
    var r := DeleteStudentDb(db, id);
    FilterDistinctBy(db.students, (s: Student) => s.id != id, StudentKey);
    FilterNoDup(db.enrollments, (e: Enrollment) => e.student != id);
    forall e | e in r.enrollments ensures r.HasStudent(e.student) {
      var s :| s in db.students && s.id == e.student;
      assert s in r.students;
    }
  }

  /** Deleting an assessment keeps a valid store valid. */
  lemma DeleteAssessmentKeepsValid(db: Db, id: nat)
    requires db.Valid()
    ensures DeleteAssessmentDb(db, id).Valid()
  {
    var r := DeleteAssessmentDb(db, id);
    FilterDistinctBy(db.assessments, (a: Assessment) => a.id != id, AssessmentKey);
    FilterNoDup(db.targets, (t: Target) => t.assessment != id);
    forall t | t in r.targets ensures r.HasAssessment(t.assessment) {
      var a :| a in db.assessments && a.id == t.assessment;
      assert a in r.assessments;
    }
  }

  lemma AppendDistinct<T, K>(s: seq<T>, x: T, key: T -> K)
    requires DistinctBy(s, key) && forall y :: y in s ==> key(y) != key(x)
    ensures DistinctBy(s + [x], key)
  {
    var r := s + [x];
    forall i, j | 0 <= i < j < |r| ensures key(r[i]) != key(r[j]) {
      if j == |s| {
        assert r[i] == s[i] && s[i] in s;
      } else {
        assert r[i] == s[i] && r[j] == s[j];
      }
    }
  }

  lemma AppendNoDup<T>(s: seq<T>, x: T)
    requires NoDup(s) && x !in s
    ensures NoDup(s + [x])
  {
    NoDupAppend(s, [x]);
  }

  /** The targets of a fresh assessment id on distinct existing courses keep a valid store valid. */
  lemma AddTargetsKeepsValid(db: Db, a: Assessment, cids: seq<nat>)
    requires db.Valid() && !db.HasAssessment(a.id)
    requires NoDup(cids) && forall c :: c in cids ==> db.HasCourse(c)
    ensures db.(assessments := db.assessments + [a], targets := db.targets + TargetsFor(a.id, cids)).Valid()
  {
    var r := db.(assessments := db.assessments + [a], targets := db.targets + TargetsFor(a.id, cids));
    AppendDistinct(db.assessments, a, AssessmentKey);
    var fresh_ := TargetsFor(a.id, cids);
    assert NoDup(fresh_) by {
      forall i, j | 0 <= i < j < |fresh_| ensures fresh_[i] != fresh_[j] {
        assert cids[i] != cids[j];
      }
    }
    forall t | t in db.targets ensures t !in fresh_ {
      assert db.HasAssessment(t.assessment);
    }
    NoDupAppend(db.targets, fresh_);
    forall t | t in r.targets ensures r.HasAssessment(t.assessment) && r.HasCourse(t.course) {
      if t in db.targets {
        var b :| b in db.assessments && b.id == t.assessment;
        assert b in r.assessments;
      } else {
        var k :| 0 <= k < |fresh_| && fresh_[k] == t;
        assert cids[k] in cids;
        assert a in r.assessments;
      }
    }
    forall e | e in r.enrollments ensures r.HasStudent(e.student) && r.HasCourse(e.course) {
    }
  }

  // ---------------------------------------------------------------------------

  /** The database connection's tables, with the next AUTOINCREMENT value of each counted key. */
  class Store {
    var teachers: seq<Teacher>
    var courses: seq<Course>
    var students: seq<Student>
    var enrollments: seq<Enrollment>
    var assessments: seq<Assessment>
    var targets: seq<Target>
    var nextTeacherId: nat
    var nextCourseId: nat
    var nextAssessmentId: nat

    function Snapshot(): Db
      reads this
    {
      Db(teachers, courses, students, enrollments, assessments, targets)
    }

    /** The schema's constraints, and every counted key below its counter. */
    ghost predicate Valid()
      reads this
    {
      && Snapshot().Valid()
      && (forall t :: t in teachers ==> t.id < nextTeacherId)
      && (forall c :: c in courses ==> c.id < nextCourseId)
      && (forall a :: a in assessments ==> a.id < nextAssessmentId)
    }

    /** `ensure_schema` on a new database file: empty tables, every counter at 1. */
    constructor ()
      ensures Valid()
      ensures Snapshot() == Db([], [], [], [], [], [])
      ensures nextTeacherId == 1 && nextCourseId == 1 && nextAssessmentId == 1
    {
      teachers, courses, students := [], [], [];
      enrollments, assessments, targets := [], [], [];
      nextTeacherId, nextCourseId, nextAssessmentId := 1, 1, 1;
    }

    /** `add_teacher`: fails iff the name is taken (UNIQUE); otherwise appends it under the next id. */
    method AddTeacher(name: string) returns (ok: bool)
      requires Valid()
      modifies this
      ensures Valid()
      ensures ok <==> forall t :: t in old(teachers) ==> t.name != name
      ensures ok ==> Snapshot() == old(Snapshot()).(teachers := old(teachers) + [Teacher(old(nextTeacherId), name)])
      ensures ok ==> nextTeacherId == old(nextTeacherId) + 1
      ensures !ok ==> Snapshot() == old(Snapshot()) && nextTeacherId == old(nextTeacherId)
      ensures nextCourseId == old(nextCourseId) && nextAssessmentId == old(nextAssessmentId)
    {
      ok := forall t :: t in teachers ==> t.name != name;
      if !ok {
        return;
      }
      var t := Teacher(nextTeacherId, name);
      AppendDistinct(teachers, t, TeacherKey);
      AppendDistinct(teachers, t, TeacherNameKey);
      teachers := teachers + [t];
      nextTeacherId := nextTeacherId + 1;
    }

    /** `delete_teacher`: removes the teacher and sets the teacher of its courses to NULL. */
    method DeleteTeacher(id: nat)
      requires Valid()
      modifies this
      ensures Valid()
      ensures Snapshot() == DeleteTeacherDb(old(Snapshot()), id)
      ensures nextTeacherId == old(nextTeacherId) && nextCourseId == old(nextCourseId)
      ensures nextAssessmentId == old(nextAssessmentId)
    {
      DeleteTeacherKeepsValid(Snapshot(), id);
      teachers := TeachersWithout(teachers, id);
      courses := ClearTeacher(courses, id);
      assert forall c :: c in courses ==> c.id < nextCourseId by {
        forall c | c in courses ensures c.id < nextCourseId {
          var k :| 0 <= k < |courses| && courses[k] == c;
          assert old(courses)[k] in old(courses);
        }
      }
    }

    /**
     * `add_course`: fails iff the level is not one of 'SL', 'HL', 'Core'
     * (CHECK) or the teacher id names no teacher (foreign key; NULL is allowed).
     */
    method AddCourse(name: string, level: string, teacher: Option<nat>) returns (ok: bool)
      requires Valid()
      modifies this
      ensures Valid()
      ensures ok <==> ParseLevel(level).Some? && (teacher.None? || old(Snapshot()).HasTeacher(teacher.value))
      ensures ok ==> Snapshot() == old(Snapshot()).(courses :=
        old(courses) + [Course(old(nextCourseId), name, ParseLevel(level).value, teacher)])
      ensures ok ==> nextCourseId == old(nextCourseId) + 1
      ensures !ok ==> Snapshot() == old(Snapshot()) && nextCourseId == old(nextCourseId)
      ensures nextTeacherId == old(nextTeacherId) && nextAssessmentId == old(nextAssessmentId)
    {
      var parsed := ParseLevel(level);
      ok := parsed.Some? && (teacher.None? || Snapshot().HasTeacher(teacher.value));
      if !ok {
        return;
      }
      var c := Course(nextCourseId, name, parsed.value, teacher);
      AppendDistinct(courses, c, CourseKey);
      courses := courses + [c];
      nextCourseId := nextCourseId + 1;
    }

    /** `delete_course`: removes the course, its enrollments and its targets. */
    method DeleteCourse(id: nat)
      requires Valid()
      modifies this
      ensures Valid()
      ensures Snapshot() == DeleteCourseDb(old(Snapshot()), id)
      ensures nextTeacherId == old(nextTeacherId) && nextCourseId == old(nextCourseId)
      ensures nextAssessmentId == old(nextAssessmentId)
    {
      DeleteCourseKeepsValid(Snapshot(), id);
      courses := CoursesWithout(courses, id);
      enrollments := EnrollmentsWithoutCourse(enrollments, id);
      targets := TargetsWithoutCourse(targets, id);
    }

    /**
     * `add_student`: fails iff the grade does not fit a 64-bit INTEGER
     * parameter (the bind raises before the INSERT) or the student id is taken
     * (primary key).
     */
    method AddStudent(id: string, name: string, grade: int) returns (ok: bool)
      requires Valid()
      modifies this
      ensures Valid()
      ensures ok <==> FitsInteger(grade) && !old(Snapshot()).HasStudent(id)
      ensures ok ==> Snapshot() == old(Snapshot()).(students := old(students) + [Student(id, name, grade)])
      ensures !ok ==> Snapshot() == old(Snapshot())
      ensures nextTeacherId == old(nextTeacherId) && nextCourseId == old(nextCourseId)
      ensures nextAssessmentId == old(nextAssessmentId)
    {
      ok := FitsInteger(grade) && !Snapshot().HasStudent(id);
      if !ok {
        return;
      }
      var s := Student(id, name, grade);
      AppendDistinct(students, s, StudentKey);
      students := students + [s];
    }

    /** `delete_student`: removes the student and its enrollments. */
    method DeleteStudent(id: string)
      requires Valid()
      modifies this
      ensures Valid()
      ensures Snapshot() == DeleteStudentDb(old(Snapshot()), id)
      ensures nextTeacherId == old(nextTeacherId) && nextCourseId == old(nextCourseId)
      ensures nextAssessmentId == old(nextAssessmentId)
    {
      DeleteStudentKeepsValid(Snapshot(), id);
      students := StudentsWithout(students, id);
      enrollments := EnrollmentsWithoutStudent(enrollments, id);
    }

    /**
     * `enroll_student`: fails iff the student or the course does not exist
     * (foreign keys) or the pair is already enrolled (UNIQUE).
     */
    method EnrollStudent(sid: string, cid: nat) returns (ok: bool)
      requires Valid()
      modifies this
      ensures Valid()
      ensures ok <==> old(Snapshot()).HasStudent(sid) && old(Snapshot()).HasCourse(cid)
                      && Enrollment(sid, cid) !in old(enrollments)
      ensures ok ==> Snapshot() == old(Snapshot()).(enrollments := old(enrollments) + [Enrollment(sid, cid)])
      ensures !ok ==> Snapshot() == old(Snapshot())
      ensures nextTeacherId == old(nextTeacherId) && nextCourseId == old(nextCourseId)
      ensures nextAssessmentId == old(nextAssessmentId)
    {
      var e := Enrollment(sid, cid);
      ok := Snapshot().HasStudent(sid) && Snapshot().HasCourse(cid) && e !in enrollments;
      if !ok {
        return;
      }
      AppendNoDup(enrollments, e);
      enrollments := enrollments + [e];
    }

    /**
     * `add_assessment` with its inserts made atomic: it fails, changing
     * nothing, iff the priority is not 0 or 1, the audience is not 'SL', 'HL'
     * or 'Both', or some target insert would fail; otherwise it adds the
     * assessment under the next id and one target per course id, in order.
     */
    method AddAssessment(name: string, due: Day, priority: int, audience: string, cids: seq<nat>)
      returns (ok: bool, id: nat)
      requires Valid()
      modifies this
      ensures Valid()
      ensures ok <==> ParsePriority(priority).Some? && ParseAudience(audience).Some?
                      && FirstRejected(old(courses), cids) == |cids|
      ensures ok ==> id == old(nextAssessmentId) && nextAssessmentId == id + 1
      ensures ok ==> Snapshot() == old(Snapshot()).(
        assessments := old(assessments) + [Assessment(id, name, due, ParsePriority(priority).value, ParseAudience(audience).value)],
        targets := old(targets) + TargetsFor(id, cids))
      ensures !ok ==> Snapshot() == old(Snapshot()) && nextAssessmentId == old(nextAssessmentId)
      ensures nextTeacherId == old(nextTeacherId) && nextCourseId == old(nextCourseId)
    {
      var p := ParsePriority(priority);
      var aud := ParseAudience(audience);
      id := nextAssessmentId;
      ok := p.Some? && aud.Some? && FirstRejected(courses, cids) == |cids|;
      if !ok {
        return;
      }
      var a := Assessment(id, name, due, p.value, aud.value);
      AcceptedTargets(Snapshot(), cids);
      AddTargetsKeepsValid(Snapshot(), a, cids);
      assessments := assessments + [a];
      targets := targets + TargetsFor(id, cids);
      nextAssessmentId := nextAssessmentId + 1;
    }

    /**
     * `add_assessment` as written: the assessment row is inserted first and
     * the target rows one by one; the first failing target insert raises and
     * leaves the assessment and the earlier targets in place.
     */
    method AddAssessmentAsWritten(name: string, due: Day, priority: int, audience: string, cids: seq<nat>)
      returns (ok: bool, id: nat)
      requires Valid()
      modifies this
      ensures ParsePriority(priority).None? || ParseAudience(audience).None? ==>
        !ok && Snapshot() == old(Snapshot()) && nextAssessmentId == old(nextAssessmentId)
      ensures ParsePriority(priority).Some? && ParseAudience(audience).Some? ==>
        && ok == (FirstRejected(old(courses), cids) == |cids|)
        && id == old(nextAssessmentId) && nextAssessmentId == id + 1
        && Snapshot() == old(Snapshot()).(
          assessments := old(assessments) + [Assessment(id, name, due, ParsePriority(priority).value, ParseAudience(audience).value)],
          targets := old(targets) + TargetsFor(id, cids[..FirstRejected(old(courses), cids)]))
      ensures nextTeacherId == old(nextTeacherId) && nextCourseId == old(nextCourseId)
    {
      var p := ParsePriority(priority);
      var aud := ParseAudience(audience);
      id := nextAssessmentId;
      if p.None? || aud.None? {
        return false, id;
      }
      var a := Assessment(id, name, due, p.value, aud.value);
      assessments := assessments + [a];
      nextAssessmentId := nextAssessmentId + 1;
      assert forall t :: t in targets ==> t.assessment != id by {
        assert old(Valid());
      }
      ok, targets := InsertTargets(courses, targets, id, cids);
    }

    /** `delete_assessment`: removes the assessment and its targets. */
    method DeleteAssessment(id: nat)
      requires Valid()
      modifies this
      ensures Valid()
      ensures Snapshot() == DeleteAssessmentDb(old(Snapshot()), id)
      ensures nextTeacherId == old(nextTeacherId) && nextCourseId == old(nextCourseId)
      ensures nextAssessmentId == old(nextAssessmentId)
    {
      DeleteAssessmentKeepsValid(Snapshot(), id);
      assessments := AssessmentsWithout(assessments, id);
      targets := TargetsWithoutAssessment(targets, id);
    }
  }

  /**
   * The target loop of `add_assessment` as written: one target row per course
   * id, inserted in order, stopping at the first id that is unknown or
   * repeated. Returns whether every insert succeeded and the target table left
   * behind.
   */
  method InsertTargets(courses: seq<Course>, existing: seq<Target>, id: nat, cids: seq<nat>)
    returns (ok: bool, inserted: seq<Target>)
    requires forall t :: t in existing ==> t.assessment != id
    ensures ok == (FirstRejected(courses, cids) == |cids|)
    ensures inserted == existing + TargetsFor(id, cids[..FirstRejected(courses, cids)])
  {
    ghost var stop := FirstRejected(courses, cids);
    inserted := existing;
    var k := 0;
    ok := true;
    while k < |cids|
      invariant k <= stop
      invariant inserted == existing + TargetsFor(id, cids[..k])
    {
      RepeatedTarget(existing, id, cids, k);
      StopsAt(courses, cids, k);
      if !CourseIn(courses, cids[k]) || Target(id, cids[k]) in inserted {
        ok := false;
        break;
      }
      TargetsForSnoc(id, cids, k);
      inserted := inserted + [Target(id, cids[k])];
      k := k + 1;
    }
    assert ok ==> cids[..k] == cids && stop == |cids|;
  }

  /** A target insert clashes with the rows already added exactly when its course id repeats. */
  lemma RepeatedTarget(ts: seq<Target>, id: nat, cids: seq<nat>, k: nat)
    requires forall t :: t in ts ==> t.assessment != id
    requires k < |cids|
    ensures Target(id, cids[k]) in ts + TargetsFor(id, cids[..k]) <==> cids[k] in cids[..k]
  {
    TargetsForMembership(id, cids[..k], cids[k]);
  }

  lemma TargetsForSnoc(aid: nat, cids: seq<nat>, k: nat)
    requires k < |cids|
    ensures TargetsFor(aid, cids[..k + 1]) == TargetsFor(aid, cids[..k]) + [Target(aid, cids[k])]
  {
    assert cids[..k + 1][..k] == cids[..k];
  }

  /** Below the first refused position, position `k` is refused exactly when it is that position. */
  lemma StopsAt(courses: seq<Course>, cids: seq<nat>, k: nat)
    requires k <= FirstRejected(courses, cids) && k < |cids|
    ensures (CourseIn(courses, cids[k]) && cids[k] !in cids[..k]) <==> k < FirstRejected(courses, cids)
  {
  }

  /** Course ids accepted by `FirstRejected` are distinct and name existing courses. */
  lemma AcceptedTargets(db: Db, cids: seq<nat>)
    requires FirstRejected(db.courses, cids) == |cids|
    ensures NoDup(cids) && forall c :: c in cids ==> db.HasCourse(c)
  {
    forall i, j | 0 <= i < j < |cids| ensures cids[i] != cids[j] {
      assert cids[i] in cids[..j];
    }
  }

  /**
   * A failing target insert as written leaves the assessment and the targets
   * before it behind, where the atomic insert leaves nothing: one course, and
   * a major assessment aimed at it and at a course id that does not exist.
   */
  method PartialInsertWitness() returns (ok: bool, keptAssessments: nat, keptTargets: nat, atomicAssessments: nat)
    ensures !ok && keptAssessments == 1 && keptTargets == 1 && atomicAssessments == 0
  {
    ok, keptAssessments, keptTargets := AsWrittenRun();
    var ok2;
    ok2, atomicAssessments := AtomicRun();
  }

  /** The witness run against the insert as written: the assessment and one target stay. */
  method AsWrittenRun() returns (ok: bool, keptAssessments: nat, keptTargets: nat)
    ensures !ok && keptAssessments == 1 && keptTargets == 1
  {
    var store := new Store();
    var added := store.AddCourse("History", "HL", None);
    var id;
    ok, id := store.AddAssessmentAsWritten("Essay", 0, 1, "Both", [1, 2]);
    assert store.courses == [Course(1, "History", HL, None)];
    keptAssessments, keptTargets := |store.assessments|, |store.targets|;
  }

  /** The same run against the atomic insert: nothing stays. */
  method AtomicRun() returns (ok: bool, keptAssessments: nat)
    ensures !ok && keptAssessments == 0
  {
    var store := new Store();
    var added := store.AddCourse("History", "HL", None);
    var id;
    ok, id := store.AddAssessment("Essay", 0, 1, "Both", [1, 2]);
    keptAssessments := |store.assessments|;
  }
}
