/**
 * The relational store's schema (BackEnd.py lines 13-56) as values: one
 * datatype per row kind, the enum CHECK constraints as closed datatypes with
 * their textual forms, and `Db.Valid`, the uniqueness and foreign-key
 * constraints that SQLite enforces (with `PRAGMA foreign_keys = ON`).
 */
module Schema {
  import opened Calendar
  import opened Seqs

  datatype Option<T> = None | Some(value: T)

  /** `CourseLevel IN ('SL','HL','Core')`. */
  datatype Level = SL | HL | Core

  /** `Audience IN ('SL','HL','Both')`. */
  datatype Audience = AudienceSL | AudienceHL | Both

  /** `Priority IN (0,1)`: 0 is a minor assessment, 1 a major one. */
  datatype Priority = Minor | Major

  function LevelName(l: Level): string {
    match l
    case SL => "SL"
    case HL => "HL"
    case Core => "Core"
  }

  /** The CHECK on `CourseLevel`: only the three level names are stored. */
  function ParseLevel(s: string): (r: Option<Level>)
    ensures r.Some? ==> LevelName(r.value) == s
  {
    if s == "SL" then Some(SL)
    else if s == "HL" then Some(HL)
    else if s == "Core" then Some(Core)
    else None
  }

  lemma LevelRoundTrip(l: Level)
    ensures ParseLevel(LevelName(l)) == Some(l)
  {
  }

  function AudienceName(a: Audience): string {
    match a
    case AudienceSL => "SL"
    case AudienceHL => "HL"
    case Both => "Both"
  }

  /** The CHECK on `Audience`. */
  function ParseAudience(s: string): (r: Option<Audience>)
    ensures r.Some? ==> AudienceName(r.value) == s
  {
    if s == "SL" then Some(AudienceSL)
    else if s == "HL" then Some(AudienceHL)
    else if s == "Both" then Some(Both)
    else None
  }

  lemma AudienceRoundTrip(a: Audience)
    ensures ParseAudience(AudienceName(a)) == Some(a)
  {
  }

  function PriorityValue(p: Priority): int {
    match p
    case Minor => 0
    case Major => 1
  }

  /** The CHECK on `Priority`. */
  function ParsePriority(n: int): (r: Option<Priority>)
    ensures r.Some? <==> n == 0 || n == 1
    ensures r.Some? ==> PriorityValue(r.value) == n
  {
    if n == 0 then Some(Minor) else if n == 1 then Some(Major) else None
  }

  /**
   * A value Python's sqlite3 can bind as an INTEGER parameter: a signed 64-bit
   * integer. Binding any other `int` raises `OverflowError` before the
   * statement runs.
   */
  predicate FitsInteger(n: int) {
    -0x8000_0000_0000_0000 <= n < 0x8000_0000_0000_0000
  }

  datatype Teacher = Teacher(id: nat, name: string)
  datatype Course = Course(id: nat, name: string, level: Level, teacher: Option<nat>)
  datatype Student = Student(id: string, name: string, grade: int)
  datatype Enrollment = Enrollment(student: string, course: nat)
  datatype Assessment = Assessment(id: nat, name: string, due: Day, priority: Priority, audience: Audience)
  datatype Target = Target(assessment: nat, course: nat)

  // Key columns, named so that uniqueness can be stated once with `DistinctBy`.
  function TeacherKey(t: Teacher): nat { t.id }
  function TeacherNameKey(t: Teacher): string { t.name }
  function CourseKey(c: Course): nat { c.id }
  function StudentKey(s: Student): string { s.id }
  function AssessmentKey(a: Assessment): nat { a.id }

  /** Some course of `cs` has id `id`. */
  predicate CourseIn(cs: seq<Course>, id: nat) {
    exists c :: c in cs && c.id == id
  }

  /** The six tables of the store. */
  datatype Db = Db(teachers: seq<Teacher>, courses: seq<Course>, students: seq<Student>,
                   enrollments: seq<Enrollment>, assessments: seq<Assessment>, targets: seq<Target>)
  {
    predicate HasTeacher(id: nat) {
      exists t :: t in teachers && t.id == id
    }

    predicate HasCourse(id: nat) {
      CourseIn(courses, id)
    }

    predicate HasStudent(id: string) {
      exists s :: s in students && s.id == id
    }

    predicate HasAssessment(id: nat) {
      exists a :: a in assessments && a.id == id
    }

    /** Primary keys, UNIQUE columns and foreign keys of the schema. */
    predicate Valid() {
      && DistinctBy(teachers, TeacherKey)
      && DistinctBy(teachers, TeacherNameKey)
      && DistinctBy(courses, CourseKey)
      && (forall c :: c in courses && c.teacher.Some? ==> HasTeacher(c.teacher.value))
      && DistinctBy(students, StudentKey)
      && NoDup(enrollments)
      && (forall e :: e in enrollments ==> HasStudent(e.student) && HasCourse(e.course))
      && DistinctBy(assessments, AssessmentKey)
      && NoDup(targets)
      && (forall t :: t in targets ==> HasAssessment(t.assessment) && HasCourse(t.course))
    }
  }

  /** The row a primary-key lookup finds: the first row with that key. */
  function FindTeacher(ts: seq<Teacher>, id: nat): (r: Option<Teacher>)
    ensures r.Some? ==> r.value in ts && r.value.id == id
    ensures r.None? ==> forall t :: t in ts ==> t.id != id
  {
    if ts == [] then None else if ts[0].id == id then Some(ts[0]) else FindTeacher(ts[1..], id)
  }

  function FindCourse(cs: seq<Course>, id: nat): (r: Option<Course>)
    ensures r.Some? ==> r.value in cs && r.value.id == id
    ensures r.None? ==> forall c :: c in cs ==> c.id != id
  {
    if cs == [] then None else if cs[0].id == id then Some(cs[0]) else FindCourse(cs[1..], id)
  }

  function FindStudent(ss: seq<Student>, id: string): (r: Option<Student>)
    ensures r.Some? ==> r.value in ss && r.value.id == id
    ensures r.None? ==> forall s :: s in ss ==> s.id != id
  {
    if ss == [] then None else if ss[0].id == id then Some(ss[0]) else FindStudent(ss[1..], id)
  }

  function FindAssessment(as_: seq<Assessment>, id: nat): (r: Option<Assessment>)
    ensures r.Some? ==> r.value in as_ && r.value.id == id
    ensures r.None? ==> forall a :: a in as_ ==> a.id != id
  {
    if as_ == [] then None else if as_[0].id == id then Some(as_[0]) else FindAssessment(as_[1..], id)
  }

  /** With unique keys the lookup finds the one row holding the key. */
  lemma FindAssessmentUnique(as_: seq<Assessment>, a: Assessment)
    requires DistinctBy(as_, AssessmentKey) && a in as_
    ensures FindAssessment(as_, a.id) == Some(a)
  {
    var r := FindAssessment(as_, a.id).value;
    var i :| 0 <= i < |as_| && as_[i] == a;
    var j :| 0 <= j < |as_| && as_[j] == r;
    assert AssessmentKey(as_[i]) == AssessmentKey(as_[j]);
  }

  lemma FindStudentUnique(ss: seq<Student>, s: Student)
    requires DistinctBy(ss, StudentKey) && s in ss
    ensures FindStudent(ss, s.id) == Some(s)
  {
    var r := FindStudent(ss, s.id).value;
    var i :| 0 <= i < |ss| && ss[i] == s;
    var j :| 0 <= j < |ss| && ss[j] == r;
    assert StudentKey(ss[i]) == StudentKey(ss[j]);
  }
}
