# Assessment overload model

A Dafny model of a school's assessment planner. The planner stores teachers, courses, students, enrollments and assessments in SQLite (BackEnd.py) and shows them through a Tk front end (GUI.py).

A student is **overloaded** in a week when at least four major (priority 1) assessments reach them in that week through the courses they are enrolled in. The model covers four parts:

- the engine around that rule: the detector, the detail expander, the per-student report and the alternative-date suggester;
- the store operations that change the tables under the schema's keys, CHECKs and cascades;
- the GUI decisions that feed the engine and filter its lists;
- the `%Y-%W` week key that every count uses.

Modules, one per concern:

- `Calendar`: day numbers (days since 0001-01-01), the civil year and strftime's `%W` week number, and the `(year, week)` key.
- `Seqs`: generic sequence helpers (filter, distinctness, count, insertion sort by a key).
- `Schema`: the six tables as values, the CHECK-constrained columns, and the `Db` record with its key and foreign-key invariant `Valid`.
- `Conflicts`: `detect_assessment_conflicts` and `get_student_conflict_details`.
- `Suggest`: `suggest_alternative_date` and `is_week_overloaded`.
- `Report`: `generate_student_report`, both as evidently intended and as written.
- `Database`: the store as a class whose table fields the add/delete methods update in place. Each delete is also specified by a function on `Db` values.
- `Gui`: `is_header_junk`, the list refreshes, the student, assessment and enrollment handlers, and the add → detect → suggest pipeline.

Dates are day numbers: Python's `toordinal() - 1`, restricted to 0001-01-01 .. 9999-12-31. Parsing and printing date strings is not modelled. The week key follows the `%W` conversion of strftime in ISO C (section 7.27.3.5 of C11): weeks start on Monday, and the days of a year before its first Monday fall in week 0. It is not ISO 8601 week numbering, although the detector's docstring (BackEnd.py:191) says "ISO week". The model follows the code.

The detector, the expander and the report attribute a major assessment to every enrolled student of every course it targets. The `Audience` column is stored but never consulted. The model follows the code, and `Conflicts.DetectIgnoresAudience` proves that relabelling every audience leaves the detector's output unchanged.

## Model

| member | source | states |
|---|---|---|
| Calendar.YearStart | BackEnd.py:198 | January 1 of a year comes at least 365 days per earlier year after 0001-01-01 |
| Calendar.LeapStep | BackEnd.py:198 | the quotient count of leap years (every 4th, not every 100th, every 400th) grows by one exactly at a leap year |
| Calendar.YearStartClosed | BackEnd.py:198 | the year-by-year start of a year equals the Gregorian closed form 365·n + n/4 − n/100 + n/400 |
| Calendar.YearStartBeyond | BackEnd.py:198 | no year from 10000 on starts at a representable date |
| Calendar.YearStartMonotone | BackEnd.py:198 | years start at least 365 days apart per year |
| Calendar.YearFromBounds | BackEnd.py:198 | walking year by year from a year's January 1 ends in the year whose span holds the day |
| Calendar.CivilYear | BackEnd.py:198 | the `%Y` of a day number is the year whose span (Gregorian leap rule) contains it |
| Calendar.CivilYearUnique | BackEnd.py:198 | any year whose span contains the day is its civil year |
| Calendar.NewYearCivil | BackEnd.py:198 | December 31 of a year is in that year and the next day in the next year |
| Calendar.Weekday | BackEnd.py:198 | the weekday is in 0..6 (Monday is 0) |
| Calendar.MondayOf | BackEnd.py:198 | every day lies in the seven days from a Monday |
| Calendar.YearDay | BackEnd.py:198 | the 0-based day of the year is below that year's length |
| Calendar.WeekNumberAsMonday | BackEnd.py:198 | `%W` equals the number of Mondays of the year on or before the date |
| Calendar.WeekOfRange | BackEnd.py:198 | every key has a year in 1..9999 and a week in 0..53 |
| Calendar.SameWeekKey | BackEnd.py:198 | two dates share a key iff they are in the same year and the same Monday-to-Sunday week |
| Calendar.WeekOfMonotone | BackEnd.py:198 | a later date never has an earlier key |
| Calendar.WeekApart | BackEnd.py:198 | dates seven or more days apart never share a key |
| Calendar.NewYearStartsBucket | BackEnd.py:198 | December 31 and the following January 1 are always in different buckets, keyed by their own years |
| Calendar.WeekZeroBeforeFirstMonday | BackEnd.py:198 | week 0 holds exactly the days before the year's first Monday |
| Calendar.RankOrder | BackEnd.py:207 | the integer rank used for `ORDER BY Week DESC` orders keys as the key strings do |
| Schema.ParseLevel | BackEnd.py:21 | only 'SL', 'HL' and 'Core' pass the CourseLevel CHECK, and the stored value renders back to the input |
| Schema.LevelRoundTrip | BackEnd.py:21 | every level passes the CHECK as itself |
| Schema.ParseAudience | BackEnd.py:47 | only 'SL', 'HL' and 'Both' pass the Audience CHECK, and the stored value renders back to the input |
| Schema.AudienceRoundTrip | BackEnd.py:47 | every audience passes the CHECK as itself |
| Schema.ParsePriority | BackEnd.py:45 | the Priority CHECK accepts exactly 0 and 1, and the stored value is that number |
| Schema.FindTeacher | BackEnd.py:14 | a primary-key lookup returns a row with that id, or none when no row has it |
| Schema.FindCourse | BackEnd.py:19 | a primary-key lookup returns a row with that id, or none when no row has it |
| Schema.FindStudent | BackEnd.py:242-248 | the name lookup returns the student with that id, or none when no row has it |
| Schema.FindAssessment | BackEnd.py:42 | a primary-key lookup returns a row with that id, or none when no row has it |
| Schema.FindAssessmentUnique | BackEnd.py:42 | with distinct ids the lookup returns the very row that carries the id |
| Schema.FindStudentUnique | BackEnd.py:27 | with distinct ids the lookup returns the very row that carries the id |
| Conflicts.TargetHitsMembership | BackEnd.py:202-203 | a (course, assessment) pair joins a course's targets iff a target row links them and the assessment row exists |
| Conflicts.EnrollmentHitsMembership | BackEnd.py:201-203 | a pair joins the enrollments iff the student is enrolled in the course and a target row links an existing assessment to it |
| Conflicts.HitsMembership | BackEnd.py:201-204 | the student's join rows are exactly the enrolled-course and target pairs whose assessment exists |
| Conflicts.HitsInPositive | BackEnd.py:199 | a major join row in the week makes the count positive |
| Conflicts.HitsInTwo | BackEnd.py:199 | two different major join rows in the week make the count at least two |
| Conflicts.MajorWeeks | BackEnd.py:205 | the groups of one student are distinct weeks: exactly those with a positive major count |
| Conflicts.StudentConflicts | BackEnd.py:205-206 | one student's rows are exactly the weeks whose count reaches the threshold, each with its count and the student's name |
| Conflicts.GroupConflicts | BackEnd.py:200-206 | the grouped rows are exactly (student, week) pairs over the Students table with count >= 4 |
| Conflicts.LaterFirstMeansDescending | BackEnd.py:207 | sorting by the negated rank puts later weeks first |
| Conflicts.DetectAssessmentConflicts | BackEnd.py:188-208 | rows come by week descending, and each row names an existing student with its name, a week and a count >= 4 that equals the student's major count for that week |
| Conflicts.SortedGroupsSound | BackEnd.py:194-208 | any permutation of the groups sorted by week keeps their soundness and is descending |
| Conflicts.DetectLatestFirst | BackEnd.py:205-207 | the first reported row lies in the latest reported week: `ORDER BY Week DESC` puts no row in a later week |
| Conflicts.DetectMembership | BackEnd.py:188-208 | a (student, week) pair is reported iff the student exists and has at least four major join rows in that week |
| Conflicts.StudentConflictsNoDup | BackEnd.py:205 | grouping yields each week of a student once |
| Conflicts.GroupConflictsNoDup | BackEnd.py:205 | with distinct student ids no row repeats |
| Conflicts.ConflictKeyDetermines | BackEnd.py:205 | in a valid store two reported rows with the same student and week are the same row |
| Conflicts.DetectPairsUnique | BackEnd.py:205 | in a valid store each (student, week) pair appears at most once |
| Conflicts.TwoCoursesTwoHits | BackEnd.py:201-203 | a major assessment aimed at two courses the student takes counts twice in its week |
| Conflicts.SetAudience | BackEnd.py:47 | relabelling audiences keeps the number of assessments |
| Conflicts.MajorCountIgnoresAudience | BackEnd.py:194-206 | a student's weekly major count does not depend on any assessment's audience |
| Conflicts.GroupConflictsIgnoreAudience | BackEnd.py:194-206 | the grouped rows do not depend on audiences |
| Conflicts.DetectIgnoresAudience | BackEnd.py:188-208 | the detector's output does not depend on audiences |
| Conflicts.DetailRowsFromHits | BackEnd.py:225-229 | every detail row comes from a join row, its course exists, and its teacher is the LEFT JOINed teacher name |
| Conflicts.RowsIn | BackEnd.py:231-232 | the week filter keeps exactly the major rows due in that week |
| Conflicts.ConflictDetails | BackEnd.py:211-234 | rows are ordered by due date, and each is a major assessment in the week that targets a course the student is enrolled in, with that course and the name of its teacher (LEFT JOIN: none when the course has no teacher) |
| Conflicts.DetailsSound | BackEnd.py:225-233 | every permutation of the filtered rows holds only such rows |
| Conflicts.DetailRowSound | BackEnd.py:225-229 | a detail row links an enrollment of the student, a target row, an existing assessment and course, and the course's teacher |
| Conflicts.DetailRowsComplete | BackEnd.py:228 | the course join drops a join row only when its course is missing: every other hit yields its detail row with the LEFT JOINed teacher name |
| Conflicts.DetailRowsCount | BackEnd.py:228 | when every hit's course exists, the course join keeps exactly one row per hit |
| Conflicts.RowsInCountsHits | BackEnd.py:228 | joining each hit to its course keeps one row per hit, so the week's rows number the week's major hits |
| Conflicts.DetailsCountMatchesDetector | BackEnd.py:211-234 | in a valid store the expander lists exactly as many rows as the detector's count for that student and week |
| Conflicts.DetectorRowsHaveDetails | BackEnd.py:188-234 | every reported conflict expands to exactly its count of detail rows |
| Suggest.ForwardFound | BackEnd.py:330-331 | a clear forward week at the first unblocked offset is the found date, and the horizon is then not all blocked |
| Suggest.BackwardFound | BackEnd.py:333-334 | a clear backward week behind an overloaded forward one at the first unblocked offset is the found date, and the horizon is then not all blocked |
| Suggest.OffsetLeavesRange | BackEnd.py:327-329 | an offset whose candidate leaves 0001..9999 is not blocked, so the horizon is not all blocked |
| Suggest.BlockedStep | BackEnd.py:327-334 | an offset with both weeks overloaded extends the blocked run and the search moves on to the next offset |
| Suggest.SearchFrom | BackEnd.py:327-337 | once every offset below `i` is blocked, the search from `i` finds a date only at the first unblocked offset (forward before backward), finds none iff every offset up to the horizon is blocked, and raises only at an offset below which all are blocked |
| Suggest.SuggestionMeaning | BackEnd.py:305-337 | a found date is at the first offset not blocked, within the horizon, not the original, in a clear week, and forward wins at equal offset; none iff every offset up to the horizon is overloaded on both sides; out of range only when a candidate leaves 0001..9999 after blocked offsets |
| Suggest.TryOffset | BackEnd.py:327-334 | one pass of the loop body either returns the search's result at that offset or hands on to the next offset |
| Suggest.SuggestAlternativeDate | BackEnd.py:305-337 | the loop over offsets 1..max returns exactly the result of the search specification (whose meaning `Suggest.SuggestionMeaning` states) |
| Suggest.WeekOverloadedMatchesDetector | BackEnd.py:311-325 | for an existing student, `is_week_overloaded` holds iff the detector reports that student in that week |
| Suggest.SuggestionNotFlagged | BackEnd.py:327-335 | a date in a week that is not overloaded is never in a week the detector flags for the student |
| Report.ReportRows | BackEnd.py:252-270 | the report rows come ordered by due date, and each links an enrollment of the student, a target row, an existing assessment and course, and the course's teacher (LEFT JOIN) |
| Report.EntryOf | BackEnd.py:277-291 | an entry carries the row's due date and the week key of that date |
| Report.Entries | BackEnd.py:283-291 | `report_data` has one entry per row, in row order |
| Report.FirstWeeks | BackEnd.py:281 | the dictionary's keys are distinct: exactly the weeks with a major row |
| Report.KeepOverloaded | BackEnd.py:293 | the comprehension keeps exactly the listed weeks whose count reaches four |
| Report.GenerateStudentReport | BackEnd.py:238-302 | none iff the student is absent; otherwise the id, the name, the row count, the major count, the overloaded weeks and one entry per row; an existing student who reaches no assessment gets the report with zero totals, no overloaded week and no details |
| Report.AccumulateRows | BackEnd.py:272-291 | the loop leaves the major count, the dictionary (counts per week, keys in first-seen order) and the entries |
| Report.AccumulateRow | BackEnd.py:276-291 | one pass of the loop body turns the state for the rows so far into the state for one more row |
| Report.MajorRowWeeks | BackEnd.py:281 | after a major row the first-seen week list gains that row's week at the end exactly when it is new |
| Report.MajorRowCounts | BackEnd.py:281 | after a major row the dictionary's count of its week is one higher and every other count is unchanged |
| Report.MajorRowStep | BackEnd.py:279-281 | a major row adds one to its week's entry, adding the key at the end when new |
| Report.MinorRowStep | BackEnd.py:279 | a minor row leaves the dictionary unchanged |
| Report.SelectOverloaded | BackEnd.py:293 | the comprehension over the dictionary yields the overloaded weeks in key order |
| Report.MajorWithinTotal | BackEnd.py:298-299 | the major total never exceeds the total, and equals it iff every row is major |
| Report.OverloadedExactly | BackEnd.py:281-293 | a week is listed iff it has at least four major rows, and none is listed twice |
| Report.KeepOverloadedNoDup | BackEnd.py:293 | the comprehension never repeats a week |
| Report.TallyPermutation | BackEnd.py:267 | a week's count does not depend on the order of the rows |
| Report.ReportTallyIsMajorCount | BackEnd.py:252-281 | in a valid store the report's count for a week equals the detector's count for that student and week |
| Report.ReportMatchesDetector | BackEnd.py:238-302 | for an existing student the report lists a week as overloaded iff the detector reports that student and week |
| Report.ReportRowsComplete | BackEnd.py:252-270 | every join row of the student whose course exists appears in the report rows, with the course's teacher name: the query drops no assessment the student reaches |
| Report.ReportRowsCount | BackEnd.py:252-270 | in a valid store the report has exactly one row per join row, so `TotalAssessments` counts every assessment reached through an enrollment and a target |
| Report.NoHitsIff | BackEnd.py:252-270 | a student reaches no assessment iff no enrollment of theirs meets a target naming an existing assessment (no enrollments, or enrolled courses nobody targets), both directions |
| Report.NoAssessmentsEmptyReport | BackEnd.py:272-302 | a student who reaches no assessment has no report rows, so zero totals, no overloaded week and no details |
| Report.GenerateReportAsWritten | BackEnd.py:238-268 | as written the call returns none exactly for an absent student and raises otherwise |
| Report.AsWrittenNeverReports | BackEnd.py:252-277 | as written no call ever returns a report |
| Report.InnerJoinRows | BackEnd.py:265 | the inner join keeps exactly the rows whose course has a teacher |
| Report.InnerJoinMissesOverload | BackEnd.py:265 | with teacherless courses an overloaded week the detector reports vanishes from the inner-joined report |
| Report.InnerJoinDropsTeacherless | BackEnd.py:265 | rows without a teacher are all dropped by the inner join |
| Database.TeachersWithout | BackEnd.py:78-83 | the delete keeps exactly the teachers with another id |
| Database.CoursesWithout | BackEnd.py:102-107 | the delete keeps exactly the courses with another id |
| Database.StudentsWithout | BackEnd.py:123-128 | the delete keeps exactly the students with another id |
| Database.AssessmentsWithout | BackEnd.py:181-186 | the delete keeps exactly the assessments with another id |
| Database.EnrollmentsWithoutStudent | BackEnd.py:37 | the cascade keeps exactly the enrollments of other students |
| Database.EnrollmentsWithoutCourse | BackEnd.py:38 | the cascade keeps exactly the enrollments in other courses |
| Database.TargetsWithoutCourse | BackEnd.py:55 | the cascade keeps exactly the targets of other courses |
| Database.TargetsWithoutAssessment | BackEnd.py:54 | the cascade keeps exactly the targets of other assessments |
| Database.ClearTeacher | BackEnd.py:23 | SET NULL clears exactly the courses taught by the deleted teacher and changes nothing else |
| Database.TargetsFor | BackEnd.py:156-160 | one target row per course id, in order, each naming the new assessment |
| Database.TargetsForMembership | BackEnd.py:156-160 | a course is targeted iff its id was given |
| Database.TargetsForSnoc | BackEnd.py:156-160 | one more course id adds its target row at the end |
| Database.StopsAt | BackEnd.py:156-160 | before the first refused id, an id is accepted iff it exists and did not occur earlier |
| Database.InsertTargets | BackEnd.py:156-160 | the loop inserts target rows in order up to the first unknown or repeated course id, and reports success iff none was refused |
| Database.FirstRejected | BackEnd.py:55 | every course id before the result exists and is new, and the id at the result is unknown or repeated |
| Database.DeleteTeacherDb | BackEnd.py:78-83 | the teacher is gone, no course refers to it, and the other tables are untouched |
| Database.DeleteCourseDb | BackEnd.py:102-107 | the course is gone with exactly its enrollments and targets |
| Database.DeleteStudentDb | BackEnd.py:123-128 | the student is gone with exactly its enrollments |
| Database.DeleteAssessmentDb | BackEnd.py:181-186 | the assessment is gone with exactly its targets |
| Database.ClearTeacherKeepsIds | BackEnd.py:23 | SET NULL keeps course ids distinct and the same set of ids |
| Database.DeleteTeacherKeepsValid | BackEnd.py:78-83 | deleting a teacher keeps every key and foreign key |
| Database.DeleteCourseKeepsValid | BackEnd.py:102-107 | deleting a course keeps every key and foreign key |
| Database.DeleteCourseKeepsRefs | BackEnd.py:102-107 | after a course delete every enrollment and target still names an existing student, assessment and course |
| Database.DeleteStudentKeepsValid | BackEnd.py:123-128 | deleting a student keeps every key and foreign key |
| Database.DeleteAssessmentKeepsValid | BackEnd.py:181-186 | deleting an assessment keeps every key and foreign key |
| Database.AddTargetsKeepsValid | BackEnd.py:146-162 | a new assessment with distinct existing target courses keeps every key and foreign key |
| Database.Store.constructor | BackEnd.py:11-62 | a fresh store is empty and valid, and its counters start at 1 |
| Database.Store.AddTeacher | BackEnd.py:64-69 | inserted under the next id iff the name is not taken, otherwise nothing changes |
| Database.Store.DeleteTeacher | BackEnd.py:78-83 | the store becomes the teacher delete with SET NULL |
| Database.Store.AddCourse | BackEnd.py:85-90 | inserted under the next id iff the level passes the CHECK and the teacher is null or exists |
| Database.Store.DeleteCourse | BackEnd.py:102-107 | the store becomes the course delete with its cascades |
| Database.Store.AddStudent | BackEnd.py:109-114 | inserted iff the grade fits a signed 64-bit INTEGER parameter (otherwise the bind raises `OverflowError` before the INSERT) and the id is new; otherwise nothing changes |
| Database.Store.DeleteStudent | BackEnd.py:123-128 | the store becomes the student delete with its cascade |
| Database.Store.EnrollStudent | BackEnd.py:130-135 | inserted iff the student and course exist and the pair is new |
| Database.Store.AddAssessment | BackEnd.py:146-162 | atomic: the assessment and all its targets are added iff priority and audience pass and every course id exists and is new; otherwise nothing changes |
| Database.Store.AddAssessmentAsWritten | BackEnd.py:146-162 | as written: with valid columns the assessment is inserted and the targets before the first unknown or repeated course id stay, and the call fails if any id was refused |
| Database.Store.DeleteAssessment | BackEnd.py:181-186 | the store becomes the assessment delete with its cascade |
| Database.RepeatedTarget | BackEnd.py:53 | a target insert hits the primary key exactly when its course id already occurred |
| Database.AcceptedTargets | BackEnd.py:53-55 | fully accepted course ids are distinct and all exist |
| Database.AsWrittenRun | BackEnd.py:146-162 | as written, one course and a major assessment aimed at course ids [1, 2]: the call fails and one assessment and one target stay |
| Database.AtomicRun | BackEnd.py:146-162 | the same run against the atomic insert fails and leaves no assessment |
| Database.PartialInsertWitness | BackEnd.py:146-162 | one failing target leaves one assessment and one target behind as written, and nothing with the atomic insert |
| Gui.TrimLeft | GUI.py:13 | `lstrip` removes only leading whitespace and leaves none at the front |
| Gui.TrimRight | GUI.py:13 | `rstrip` removes only trailing whitespace and leaves none at the back |
| Gui.Strip | GUI.py:13 | `strip` gives empty iff the text is all whitespace, and otherwise no whitespace at either end |
| Gui.StripIgnoresPadding | GUI.py:13 | whitespace around a text never changes its stripped form |
| Gui.NatToString | GUI.py:13 | `str` of a natural number is non-empty decimal digits |
| Gui.IntToString | GUI.py:13 | `str` of an integer holds only digits and a minus sign |
| Gui.DigitsRoundTrip | GUI.py:316-321 | `int(str(n)) == n` |
| Gui.NumberNotHeader | GUI.py:13-15 | no integer renders as a column name |
| Gui.IsHeaderJunk | GUI.py:10-15 | NULL is never junk, and an integer is never junk |
| Gui.JunkIgnoresPadding | GUI.py:10-15 | a text cell is junk iff its stripped text is a column name, whatever the padding |
| Gui.HeaderNamesAreJunk | GUI.py:10-15 | every column name, padded or not, is junk |
| Gui.RefreshList | GUI.py:183-188 | the list shows exactly the rows whose id and name are not junk, in query order |
| Gui.AllShownKept | GUI.py:305-310 | a list whose every row passes the id and name test is shown whole, in query order |
| Gui.CleanRowsAllShown | GUI.py:183-188 | in the teacher list (and the course list at GUI.py:248-253), whose ids are INTEGER, rows with non-junk names are all shown: only header rows are dropped |
| Gui.StudentRowsAllShown | GUI.py:305-310 | in the student list, whose ids are TEXT, every row is shown iff no row's stripped id or name is a column name, both directions |
| Gui.StripDigits | GUI.py:315 | stripping a string of decimal digits changes nothing |
| Gui.EmptyGradeRefused | GUI.py:317-319 | an empty grade fails the guard whatever the id and name |
| Gui.GradeGuard | GUI.py:313-321 | with a grade of decimal digits (such as `str(n)`) the guard passes iff the stripped id and name are non-empty, and stripping leaves the grade as typed; an empty grade is refused |
| Gui.WideGradeRefused | GUI.py:317-322 | a grade of 2^63 or more passes the digit test but does not fit the INTEGER parameter, so the backend refuses it |
| Gui.SubmitStudent | GUI.py:312-322 | the backend is called iff the guard passes, with the stripped id and name and the grade's value; the student is added iff that value fits 64 bits and the id is new, and the store changes only then |
| Gui.SubmitAssessment | GUI.py:462-504 | refused iff a field or the selection is empty; otherwise inserted iff the backend accepts; for a major, the detector runs after the insert, and a suggestion is sought for the first reported student, whose conflict lies in the latest reported week, from the entered date within 14 days, and it is exactly the search specification's result; a found date is in a clear week |
| Gui.SelectedIds | GUI.py:477 | the selected listbox positions map to their course ids, in order |
| Gui.EnrollmentsOf | GUI.py:400-402 | one enrollment per course id, in order |
| Gui.EnrollSelected | GUI.py:388-406 | nothing without a student or a selection; otherwise the selected courses are enrolled in order up to the first one the backend refuses, and those before it stay |

## Left out

- SQLite itself: connections, `commit`, `row_factory`, the indexes and `PRAGMA foreign_keys`. Each operation is modelled as its effect on the tables, with foreign keys enforced.
- Date strings: the `YYYY-MM-DD` text of `DueDate`, `strptime` and the `%Y-%W` string are not modelled. A due date is a day number and a week key is a `(year, week)` pair. A `DueDate` that is not a valid date makes SQLite's `strftime` yield NULL; that case is not modelled.
- `EnrollmentID` and `CreatedAt`: columns no core code reads.
- The listing queries `get_all_*` and `get_student_courses`, and their `ORDER BY`, which only feed displays.
- Conflicts.DetectAssessmentConflicts: the order of rows within one week is left open, as `ORDER BY Week DESC` leaves it.
- Conflicts.ConflictDetails: the order of rows with equal due dates is left open, as `ORDER BY a.DueDate` leaves it.
- Report.ReportRows: the order of rows with equal due dates is left open, as `ORDER BY a.DueDate` leaves it.
- Tk widgets, layout, message boxes and page navigation. What a handler would display is its result.
- Gui.SubmitAssessment: the entered date reaches the model already read as a day number. The backend call is the atomic `Database.Store.AddAssessment` (see Findings). The suggester's exception handler is the `OutOfRange` result. Which warning text appears is not modelled. When several students are overloaded in the latest reported week, which of them is `conflicts[0]` depends on SQLite's order of rows tied under `ORDER BY Week DESC`. The model takes the first in the detector's order (Students-table order), so the student whose calendar is searched, and the date suggested, is the model's choice among them. The contract promises only that this student's conflict lies in the latest reported week.
- Gui.SubmitStudent: `isdigit` is modelled for ASCII digits only. Python also accepts other Unicode digit characters, some of which `int` then refuses.
- The combobox and listbox sources built at GUI.py:240, 369, 375, 446 and 587 are widget state and are not modelled. Their header filters differ. The one at 240 tests the teacher's name and id, as `Gui.Shown` does. The ones at 369 and 587 test only `StudentID`, so a student named, say, "Name" stays in those comboboxes although `Gui.Shown` drops it from the student list. The ones at 375 and 446 test only `CourseName`; since `CourseID` is an integer, which is never junk, they keep the same courses as `Gui.Shown`.
- Delete and edit handlers of the pages, the conflict and report pages' display code, program.py, Main.py and FrontEnd.py: these are front ends over the same backend calls.
- Database.Store.AddAssessmentAsWritten: the assessment and targets it leaves behind stay in SQLite's open transaction until a later `commit` on the same connection. The model keeps them in the tables, and it does not promise `Valid` afterwards.

## Findings

| source | as written | input that shows it | evidently intended | confidence | as-written member | corrected member |
|---|---|---|---|---|---|---|
| BackEnd.py:265 | the report query joins a table `Teachers` that the schema does not create (it creates `Teacher`), and line 277 calls `datetime.datetime.strptime` on the class `datetime`, so every call for an existing student raises | any existing student id (`Report.AsWrittenNeverReports`) | read the `Teacher` table and parse with `datetime.strptime`, returning the report | not executed | Report.GenerateReportAsWritten | Report.GenerateStudentReport |
| BackEnd.py:265 | the teacher is INNER JOINed, so rows of courses without a teacher (TeacherID NULL, allowed by line 22 and produced by ON DELETE SET NULL) are dropped from the report's counts | a student in one teacherless course with four major assessments due in one week: the detector reports the week, the report does not (`Report.InnerJoinMissesOverload`) | LEFT JOIN the teacher, as the detail query at line 229 does, so the report agrees with the detector | not executed | Report.InnerJoinRows | Report.ReportMatchesDetector |
| BackEnd.py:146-162 | the assessment row is inserted before its targets, and a target insert that fails (unknown or repeated course id) raises without a rollback, leaving the assessment and the earlier targets to be committed later | one course (id 1); add a major assessment targeting course ids [1, 2]: one assessment and one target stay (`Database.PartialInsertWitness`) | insert the assessment and all its targets or nothing | not executed | Database.Store.AddAssessmentAsWritten | Database.Store.AddAssessment |
