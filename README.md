# University records ingestion, modelled in Dafny

This project models the ingestion core of `Project.py`, a small university
records program. The program reads three tab-separated files:

- students: `CWID  Name  Major`;
- instructors: `CWID  Name  Department`;
- grades: `Student_CWID  Course  LetterGrade  Instructor_CWID`.

From them it builds two dictionaries keyed by cwid. One holds `Student`
objects, which map each course to its latest grade. The other holds
`Instructor` objects, which map each course to the number of grade lines for
it. The modelled parts are:

- the record reader `file_reader1`, which strips each line, splits it on the
  separator and refuses the first line with the wrong number of fields;
- `University.load_data` with its three callers `enroll_students`,
  `hire_instructors` and `release_score`, and the constructor that runs them
  in that order;
- `Student.add_grade` and `Student.summary`;
- `Instructor.add_student` and `Instructor.summary`.

Modules, in dependency order:

| module | file | contents |
|---|---|---|
| `Wrappers` | `wrappers.dfy` | `Option` and `Result` |
| `Text` | `text.dfy` | Python's `str.isspace`, `str.strip()`, `str.split(sep)` and `sep.join` |
| `Order` | `order.dfy` | Python's string order and `sorted` over a set of course names |
| `Reader` | `reader.dfy` | `file_reader1`: the per-line check, the whole read as a function, and the generator loop as a method |
| `Entities` | `entities.dfy` | the `Student` and `Instructor` classes and the record values they hold |
| `Store` | `store.dfy` | what `load_data` does to the dictionaries, as a function of their values, with its properties |
| `Registrar` | `registrar.dfy` | class `University`: the dictionaries of objects, and the loading methods proved against `Store` |

The reader is given a file's lines rather than a path. The separator is a
parameter, and `load_data` uses its default, a tab. A load step ends in an
`Outcome`: the dictionaries after the step plus the error that stopped it, if
any. The errors are the reader's `ValueError` (`Malformed`) and the two
`KeyError`s of the grade loop (`UnknownStudent`, `UnknownInstructor`).
`University.Create` returns the object and the error together, so the state
at the moment of the error can be stated.

The model follows the code as written:

- `strip()` removes whitespace, in Python's sense, from both ends of a line.
- A grade line with an unknown instructor writes the student's grade before
  the `KeyError`.
- Any file type other than `'grade'` and `'student'` loads instructors.
- `Student.summary` lists every graded course, whatever its grade.

## Model

| member | source | states |
|---|---|---|
| `Text.StripMeaning` | Project.py:94 | `strip()` returns a slice of the line with only whitespace before it and after it, and the slice neither starts nor ends with whitespace |
| `Text.SplitJoin` | Project.py:94 | joining the pieces of `split(sep)` with `sep` gives back the string |
| `Text.SplitPiecesFree` | Project.py:94 | no piece of `split(sep)` contains `sep` |
| `Order.SortedKeys` | Project.py:22 | `sorted(keys)` is strictly ascending in Python's string order and holds exactly the keys, each once |
| `Reader.ParseLineMeaning` | Project.py:94-97 | an empty separator is refused. Otherwise a line is accepted exactly when its stripped split has `expected` fields, and the accepted tuple is that split; a refusal carries the split's number of fields. An accepted tuple has exactly `expected` fields, joins back to the stripped line, and no field contains the separator |
| `Reader.ReadLinesMeaning` | Project.py:93-98 | a read succeeds iff every line passes, giving one tuple per line in order. Otherwise it fails at the first line that does not pass, with that line's fault, and every earlier line passed |
| `Reader.ReadAllMeaning` | Project.py:93-98 | `list(file_reader1(...))` succeeds iff every line is accepted and then yields each line's tuple in order. Otherwise it reports the index and fault of the first refused line |
| `Reader.ReadAllRows` | Project.py:93-98 | every tuple of a successful read has `expected` fields and joins back to its stripped line |
| `Reader.ReportedCountMisleads` | Project.py:96-97 | on the line `"a\tb\n"` with three fields expected, the message's count is 4 while the line has 2 fields |
| `Reader.FileReader` | Project.py:93-98 | the generator yields the accepted tuples in order and never more than there are lines. It ends without error iff the whole read succeeds, and then has yielded exactly its tuples. Otherwise it stops at the first refused line, having yielded exactly the lines before it |
| `Entities.InstructorRec.WithStudent` | Project.py:32-33 | the count for the course grows by exactly 1 (from 0 when unseen), no other count changes, the course set gains the course, and the course order stays consistent |
| `Entities.RegradeKeepsLast` | Project.py:18-19 | a later grade for the same course replaces the earlier one |
| `Entities.Student.constructor` | Project.py:12-16 | a new student holds its cwid, name and major and no grades |
| `Entities.Student.AddGrade` | Project.py:18-19 | the course now has the new grade, the course set gains the course, and every other course keeps its grade |
| `Entities.Student.Summary` | Project.py:21-22 | the row carries cwid and name, and lists every graded course exactly once, in ascending order, whatever its grade |
| `Entities.Instructor.constructor` | Project.py:26-30 | a new instructor holds its cwid, name and department and no counted courses |
| `Entities.Instructor.AddStudent` | Project.py:32-33 | the instructor's value becomes `WithStudent(course)` of the old one, keeping the course order consistent |
| `Entities.Instructor.Summary` | Project.py:35-37 | one row per counted course, in first-counted order, each with that course's count. Every counted course has a row, and no course has two |
| `Entities.CoursesCountMatchesOrder` | Project.py:35-37 | a duplicate-free list of exactly a map's keys is as long as the map, so `summary` yields as many rows as there are courses |
| `Store.UpsertKeys` | Project.py:72-83 | after a student or instructor load the cwids are the old ones plus the file's cwids |
| `Store.UpsertLatest` | Project.py:72-83 | last line wins. A cwid in the file holds the record made from its last line, with an empty course map, and the old record is gone. A cwid not in the file keeps its record |
| `Store.UpsertDistinctSize` | Project.py:72-83 | loading lines with pairwise different cwids into an empty dictionary gives one record per line |
| `Store.GradeKeeps` | Project.py:68-70 | one grade line adds and removes no record, and keeps every record under its own cwid |
| `Store.GradeAllKeeps` | Project.py:67-70 | a grade load adds and removes no record, and keeps the dictionaries consistent |
| `Store.GradeAllSucceeds` | Project.py:67-70 | a grade load raises no `KeyError` iff every line names a known student and a known instructor |
| `Store.GradeAllFailure` | Project.py:67-70 | a failed grade load stopped at the first line with an unknown cwid, after applying every earlier line. For an unknown student nothing of that line is applied. For an unknown instructor the grade is written and no count changes |
| `Store.GradeAllCounts` | Project.py:67-70 | after a successful grade load, an instructor's count for a course is its old count plus the number of grade lines for that instructor and course |
| `Store.GradeStudentStep` | Project.py:69 | an applied grade line changes only the record of the student it names, by writing the grade |
| `Store.GradeAllLatest` | Project.py:67-70 | after a successful grade load, a student's grade for a course is the one on the last line for that student and course. The student's cwid, name and major are unchanged |
| `Store.GradeAllUntouched` | Project.py:67-70 | a course with no grade line for the student keeps what it had: the same grade, or absent |
| `Store.Load` | Project.py:62-83 | `load_data` fails with the reader's error exactly when the read fails, and then changes nothing. A student or instructor load can fail no other way |
| `Store.LoadKeepsValid` | Project.py:62-83 | loading keeps every record under its own cwid and every instructor's course order consistent |
| `Store.BuildKeys` | Project.py:41-46 | after a successful construction the students' cwids are exactly the student file's cwids, and likewise for instructors |
| `Store.BuildCountsLines` | Project.py:123-135 | after a successful construction, with pairwise different cwids in a file, its dictionary has as many entries as the file has lines |
| `Registrar.University.constructor` | Project.py:42-43 | the dictionaries start empty |
| `Registrar.University.Create` | Project.py:41-46 | the new object's dictionaries and the error are exactly those of `Build`: students, then instructors, then grades, stopping at the first failing step |
| `Registrar.University.EnrollStudents` | Project.py:50-52 | the dictionaries change as `Load` of a student file says |
| `Registrar.University.HireInstructors` | Project.py:54-56 | the dictionaries change as `Load` of an instructor file says |
| `Registrar.University.ReleaseScore` | Project.py:58-60 | the dictionaries change as `Load` of a grade file says |
| `Registrar.University.LoadData` | Project.py:62-83 | the objects end up holding exactly what `Load` gives, including after an error. Objects are added only freshly created |
| `Registrar.University.UpsertRows` | Project.py:72-83 | the student or instructor loop leaves the dictionary as `Upsert` gives and the other dictionary untouched |
| `Registrar.University.Enroll` | Project.py:77-78 | the student dictionary maps the cwid to a new student object with no grades; other entries are unchanged |
| `Registrar.University.Hire` | Project.py:82-83 | the instructor dictionary maps the cwid to a new instructor object with no counts; other entries are unchanged |
| `Registrar.University.ReleaseRows` | Project.py:67-70 | the grade loop updates the objects exactly as `GradeAll` says, and stops at the first `KeyError` with the objects as they are then |
| `Registrar.University.ReleaseRow` | Project.py:69-70 | one grade line updates the objects exactly as `Grade` says |
| `Registrar.University.GradeStudent` | Project.py:69 | `add_grade` on the named student changes that student's value only |
| `Registrar.University.CountStudent` | Project.py:70 | `add_student` on the named instructor changes that instructor's value only |

## Findings

| source | as written | input that shows it | evidently intended | confidence | as-written member | corrected member |
|---|---|---|---|---|---|---|
| Project.py:96-97 | the `ValueError` message reports `len(line)`, the raw line's character count, as the number of fields | the line `"a\tb\n"` with 3 fields expected: the message says 4 fields, the line has 2 | report `len(curr_line)`, the number of fields after the split | high (not executed) | `Reader.ReportedCountMisleads` | `Reader.ParseLineMeaning` |

The model carries the field count in `FieldCount(actual, expected)`.

## Left out

- Opening a file and the `FileNotFoundError` it raises (Project.py:88-91): the reader takes the file's lines.
- The exact text of error messages: errors are datatype values carrying the line index and the counts.
- `summary_students` and `summary_instructors` (Project.py:100-115), including the calls to them in the constructor: they only print PrettyTable tables built from the modelled `summary` rows.
- `HW9Test` (Project.py:118-135): it reads fixed local paths. Only the count its two tests assert is modelled, by `Store.BuildCountsLines`.
- `project/app.py`, the web front-end, is not part of this model.
- `Registrar.University.Create`: returns the object together with the error. Python's constructor raises instead, and no object reaches the caller.
- Python object identity beyond what the dictionaries need: every object sits under its own cwid, so no two cwids share one.
- Dictionary iteration order of `University.students` and `University.instructors`: it only matters to the printed tables.
- `defaultdict` default creation on a read of a missing key: the modelled code never reads a missing key except through `+= 1`, which `Count` models.
