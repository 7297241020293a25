/**
 * What `University.load_data` does to the two dictionaries, as a function of
 * their values: student and instructor files insert or replace records by
 * cwid, a grade file updates the referenced student and instructor. The class
 * in module Registrar is proved to do exactly this.
 */
module Store {
  import opened Wrappers
  import opened Text
  import opened Reader
  import opened Entities

  /** The contents of `University.students` and `University.instructors`, keyed by cwid. */
  datatype Store = Store(students: map<string, StudentRec>, instructors: map<string, InstructorRec>)
  {
    /** Every record sits under its own cwid, and every instructor's course order is consistent. */
    ghost predicate Valid() {
      && (forall k :: k in students ==> students[k].cwid == k)
      && (forall k :: k in instructors ==> instructors[k].cwid == k && instructors[k].Valid())
    }
  }

  /** The dictionaries as `University.__init__` creates them. */
  const Empty := Store(map[], map[])

  /** Why a load step stopped. */
  datatype LoadError =
    | Malformed(cause: ReadError)       // the reader's `ValueError`
    | UnknownStudent(cwid: string)      // `KeyError` on `self.students[...]`
    | UnknownInstructor(cwid: string)   // `KeyError` on `self.instructors[...]`

  /** The dictionaries after a load step, and the error that stopped it, if any. */
  datatype Outcome = Outcome(store: Store, error: Option<LoadError>)

  /** The separator `load_data` leaves at its default. */
  const Tab: string := "\t"

  /** Every row has at least `n` fields. */
  predicate Wide(rows: seq<Fields>, n: nat) {
    forall j :: 0 <= j < |rows| ==> |rows[j]| >= n
  }

  /** The cwids (first fields) of the rows. */
  function Ids(rows: seq<Fields>): set<string>
    requires Wide(rows, 1)
  {
    set j | 0 <= j < |rows| :: rows[j][0]
  }

  lemma IdsCons(rows: seq<Fields>)
    requires Wide(rows, 1) && rows != []
    ensures Ids(rows) == {rows[0][0]} + Ids(rows[1..])
  {
  }

  /**
   * The student/instructor branch of `load_data`: each row, in file order,
   * creates a record (with an empty course dictionary) and stores it under
   * the row's cwid, replacing any record already there.
   */
  function Upsert<R>(m: map<string, R>, rows: seq<Fields>, make: (string, string, string) -> R): map<string, R>
    requires Wide(rows, 3)
    decreases |rows|
  {
    if rows == [] then m
    else
      var row := rows[0];
      Upsert(m[row[0] := make(row[0], row[1], row[2])], rows[1..], make)
  }

  /** After an upsert the keys are the old ones plus the rows' cwids. */
  lemma {:induction false} UpsertKeys<R>(m: map<string, R>, rows: seq<Fields>, make: (string, string, string) -> R)
    requires Wide(rows, 3)
    ensures Upsert(m, rows, make).Keys == m.Keys + Ids(rows)
    decreases |rows|
  {
    if rows != [] {
      var row := rows[0];
      IdsCons(rows);
      UpsertKeys(m[row[0] := make(row[0], row[1], row[2])], rows[1..], make);
    }
  }

  /** Row `j` is the last row whose cwid is `k`. */
  predicate IsLastWith(rows: seq<Fields>, k: string, j: int)
    requires Wide(rows, 1)
  {
    0 <= j < |rows| && rows[j][0] == k && forall j' :: j < j' < |rows| ==> rows[j'][0] != k
  }

  /**
   * Last write wins: a cwid that occurs in the rows holds the record made
   * from its last row, and any earlier record under that cwid is gone; a
   * cwid that does not occur keeps its old record.
   */
  lemma {:induction false} UpsertLatest<R>(m: map<string, R>, rows: seq<Fields>,
                                           make: (string, string, string) -> R, k: string)
    requires Wide(rows, 3)
    ensures k !in Ids(rows) && k in m ==> k in Upsert(m, rows, make) && Upsert(m, rows, make)[k] == m[k]
    ensures k in Ids(rows) ==>
              k in Upsert(m, rows, make)
              && exists j :: IsLastWith(rows, k, j)
                       && Upsert(m, rows, make)[k] == make(rows[j][0], rows[j][1], rows[j][2])
    decreases |rows|
  {
    if rows != [] {
      var row := rows[0];
      var m' := m[row[0] := make(row[0], row[1], row[2])];
      var rest := rows[1..];
      IdsCons(rows);
      UpsertLatest(m', rest, make, k);
      UpsertKeys(m', rest, make);
      if k in Ids(rest) {
        var j :| IsLastWith(rest, k, j) && Upsert(m', rest, make)[k] == make(rest[j][0], rest[j][1], rest[j][2]);
        assert IsLastWith(rows, k, j + 1);
      } else if k == row[0] {
        forall j' | 0 < j' < |rows| ensures rows[j'][0] != k {
          assert rows[j'][0] == rest[j' - 1][0];
        }
        assert IsLastWith(rows, k, 0);
      }
    }
  }

  /** The cwids of the rows are pairwise different. */
  predicate DistinctIds(rows: seq<Fields>)
    requires Wide(rows, 1)
  {
    forall i, j :: 0 <= i < j < |rows| ==> rows[i][0] != rows[j][0]
  }

  /** Rows with pairwise different cwids have as many cwids as rows. */
  lemma {:induction false} DistinctIdsCount(rows: seq<Fields>)
    requires Wide(rows, 1) && DistinctIds(rows)
    ensures |Ids(rows)| == |rows|
    decreases |rows|
  {
    if rows != [] {
      IdsCons(rows);
      var rest := rows[1..];
      assert DistinctIds(rest) by {
        forall i, j | 0 <= i < j < |rest| ensures rest[i][0] != rest[j][0] {
          assert rest[i] == rows[i + 1] && rest[j] == rows[j + 1];
        }
      }
      DistinctIdsCount(rest);
    }
  }

  /** Loading unique cwids into an empty dictionary gives one record per row. */
  lemma UpsertDistinctSize<R>(rows: seq<Fields>, make: (string, string, string) -> R)
    requires Wide(rows, 3) && DistinctIds(rows)
    ensures |Upsert(map[], rows, make)| == |rows|
  {
    DistinctIdsCount(rows);
    UpsertKeys(map[], rows, make);
  }

  /**
   * One grade line `(student cwid, course, grade, instructor cwid)`: the
   * student's grade is written first, then the instructor's count grows; an
   * unknown student stops before anything changes, an unknown instructor
   * stops after the grade was written.
   */
  function Grade(st: Store, row: Fields): Outcome
    requires |row| >= 4
  {
    var student, course, grade, instructor := row[0], row[1], row[2], row[3];
    if student !in st.students then Outcome(st, Some(UnknownStudent(student)))
    else
      var graded := st.(students := st.students[student := st.students[student].WithGrade(course, grade)]);
      if instructor !in graded.instructors then Outcome(graded, Some(UnknownInstructor(instructor)))
      else
        var taught := graded.instructors[instructor].WithStudent(course);
        Outcome(graded.(instructors := graded.instructors[instructor := taught]), None)
  }

  /** The grade branch of `load_data`: the lines in file order, stopping at the first `KeyError`. */
  function GradeAll(st: Store, rows: seq<Fields>): Outcome
    requires Wide(rows, 4)
    decreases |rows|
  {
    if rows == [] then Outcome(st, None)
    else
      var o := Grade(st, rows[0]);
      if o.error.Some? then o else GradeAll(o.store, rows[1..])
  }

  /** Both cwids of a grade line are in the store. */
  predicate Known(st: Store, row: Fields)
    requires |row| >= 4
  {
    row[0] in st.students && row[3] in st.instructors
  }

  /** One grade line neither adds nor removes a record, and keeps the store valid. */
  lemma GradeKeeps(st: Store, row: Fields)
    requires |row| >= 4
    ensures Grade(st, row).store.students.Keys == st.students.Keys
    ensures Grade(st, row).store.instructors.Keys == st.instructors.Keys
    ensures st.Valid() ==> Grade(st, row).store.Valid()
  {
  }

  /** Grading never adds or removes a student or an instructor, and keeps the store valid. */
  lemma {:induction false} GradeAllKeeps(st: Store, rows: seq<Fields>)
    requires Wide(rows, 4)
    ensures GradeAll(st, rows).store.students.Keys == st.students.Keys
    ensures GradeAll(st, rows).store.instructors.Keys == st.instructors.Keys
    ensures st.Valid() ==> GradeAll(st, rows).store.Valid()
    decreases |rows|
  {
    if rows != [] {
      var o := Grade(st, rows[0]);
      GradeKeeps(st, rows[0]);
      if o.error.None? {
        GradeAllKeeps(o.store, rows[1..]);
      }
    }
  }

  /** A grade file loads without error exactly when every line names a known student and instructor. */
  lemma {:induction false} GradeAllSucceeds(st: Store, rows: seq<Fields>)
    requires Wide(rows, 4)
    ensures GradeAll(st, rows).error.None? <==> forall j :: 0 <= j < |rows| ==> Known(st, rows[j])
    decreases |rows|
  {
    if rows != [] {
      var o := Grade(st, rows[0]);
      if o.error.None? {
        GradeAllSucceeds(o.store, rows[1..]);
        forall j | 0 < j < |rows| ensures Known(st, rows[j]) <==> Known(o.store, rows[1..][j - 1]) {
          assert rows[1..][j - 1] == rows[j];
        }
      }
    }
  }

  /**
   * The grade load `o` of `rows` stopped at line `j`: every earlier line
   * names known cwids and has been applied (`before` is the store then),
   * line `j` names an unknown cwid; if it is the student nothing of line `j`
   * is applied, otherwise its grade has been written but no instructor
   * count has changed.
   */
  ghost predicate StoppedAt(st: Store, rows: seq<Fields>, j: nat, before: Store, o: Outcome)
    requires Wide(rows, 4)
  {
    && j < |rows| && !Known(st, rows[j])
    && (forall i :: 0 <= i < j ==> Known(st, rows[i]))
    && GradeAll(st, rows[..j]) == Outcome(before, None)
    && var row := rows[j];
       if row[0] !in st.students then
         o == Outcome(before, Some(UnknownStudent(row[0])))
       else
         && row[0] in before.students
         && o.error == Some(UnknownInstructor(row[3]))
         && o.store.instructors == before.instructors
         && o.store.students == before.students[row[0] := before.students[row[0]].WithGrade(row[1], row[2])]
  }

  /** A grade load that fails has stopped at the first line with an unknown cwid. */
  lemma {:induction false} GradeAllFailure(st: Store, rows: seq<Fields>)
    requires Wide(rows, 4)
    ensures GradeAll(st, rows).error.Some? ==>
              exists j: nat, before :: StoppedAt(st, rows, j, before, GradeAll(st, rows))
    decreases |rows|
  {
    var o := GradeAll(st, rows);
    if rows != [] && o.error.Some? {
      var first := Grade(st, rows[0]);
      GradeKeeps(st, rows[0]);
      if first.error.Some? {
        assert rows[..0] == [];
        assert StoppedAt(st, rows, 0, st, o);
      } else {
        var rest := rows[1..];
        GradeAllFailure(first.store, rest);
        var j: nat, before :| StoppedAt(first.store, rest, j, before, o);
        StoppedAtShift(st, rows, j, before, o);
      }
    }
  }

  /** A stop at line `j` after the first line was applied is a stop at line `j + 1` of the whole file. */
  lemma StoppedAtShift(st: Store, rows: seq<Fields>, j: nat, before: Store, o: Outcome)
    requires Wide(rows, 4) && rows != []
    requires Grade(st, rows[0]).error.None?
    requires StoppedAt(Grade(st, rows[0]).store, rows[1..], j, before, o)
    ensures StoppedAt(st, rows, j + 1, before, o)
  {
    var first := Grade(st, rows[0]);
    var rest := rows[1..];
    GradeKeeps(st, rows[0]);
    assert rows[..j + 1][1..] == rest[..j];
    assert rows[..j + 1][0] == rows[0];
    assert GradeAll(st, rows[..j + 1]) == GradeAll(first.store, rest[..j]);
    assert rows[j + 1] == rest[j];
    forall i | 0 <= i < j + 1 ensures Known(st, rows[i]) {
      if i > 0 {
        assert rows[i] == rest[i - 1];
      }
    }
  }

  /** How many grade lines name instructor `instructor` and course `course`. */
  function Tally(rows: seq<Fields>, instructor: string, course: string): nat
    requires Wide(rows, 4)
    decreases |rows|
  {
    if rows == [] then 0
    else (if rows[0][3] == instructor && rows[0][1] == course then 1 else 0) + Tally(rows[1..], instructor, course)
  }

  /**
   * After a successful grade load, an instructor's count for a course is the
   * count it had plus the number of grade lines for that instructor and that
   * course, whatever their order.
   */
  lemma {:induction false} GradeAllCounts(st: Store, rows: seq<Fields>, instructor: string, course: string)
    requires Wide(rows, 4) && instructor in st.instructors
    requires GradeAll(st, rows).error.None?
    ensures instructor in GradeAll(st, rows).store.instructors
    ensures GradeAll(st, rows).store.instructors[instructor].Count(course)
            == st.instructors[instructor].Count(course) + Tally(rows, instructor, course)
    decreases |rows|
  {
    if rows != [] {
      var o := Grade(st, rows[0]);
      GradeAllCounts(o.store, rows[1..], instructor, course);
    }
  }

  /** Row `j` is the last grade line for student `student` and course `course`. */
  predicate IsLastGrade(rows: seq<Fields>, student: string, course: string, j: int)
    requires Wide(rows, 4)
  {
    && 0 <= j < |rows| && rows[j][0] == student && rows[j][1] == course
    && forall j' :: j < j' < |rows| ==> !(rows[j'][0] == student && rows[j'][1] == course)
  }

  /** One applied grade line changes only the record of the student it names. */
  lemma GradeStudentStep(st: Store, row: Fields, student: string)
    requires |row| >= 4 && student in st.students && Grade(st, row).error.None?
    ensures student in Grade(st, row).store.students
    ensures Grade(st, row).store.students[student]
            == if row[0] == student then st.students[student].WithGrade(row[1], row[2]) else st.students[student]
  {
  }

  /**
   * After a successful grade load, a student's grade for a course is the one
   * on the last grade line for that student and course, and the student's
   * cwid, name and major do not change.
   */
  lemma {:induction false} GradeAllLatest(st: Store, rows: seq<Fields>, student: string, course: string)
    requires Wide(rows, 4) && student in st.students
    requires GradeAll(st, rows).error.None?
    ensures student in GradeAll(st, rows).store.students
    ensures var was := st.students[student];
            var now := GradeAll(st, rows).store.students[student];
            && (now.cwid, now.name, now.major) == (was.cwid, was.name, was.major)
            && forall j :: IsLastGrade(rows, student, course, j) ==>
                 course in now.courses && now.courses[course] == rows[j][2]
    decreases |rows|
  {
    if rows != [] {
      var o := Grade(st, rows[0]);
      var rest := rows[1..];
      GradeStudentStep(st, rows[0], student);
      GradeAllLatest(o.store, rest, student, course);
      forall j | IsLastGrade(rows, student, course, j)
        ensures var now := GradeAll(st, rows).store.students[student];
                course in now.courses && now.courses[course] == rows[j][2]
      {
        if j > 0 {
          assert IsLastGrade(rest, student, course, j - 1);
        } else {
          GradeAllUntouched(o.store, rest, student, course);
        }
      }
    }
  }

  /**
   * After a successful grade load, a course without any grade line for the
   * student keeps what it had: present with the same grade, or absent.
   */
  lemma {:induction false} GradeAllUntouched(st: Store, rows: seq<Fields>, student: string, course: string)
    requires Wide(rows, 4) && student in st.students
    requires GradeAll(st, rows).error.None?
    requires forall j :: 0 <= j < |rows| ==> !(rows[j][0] == student && rows[j][1] == course)
    ensures student in GradeAll(st, rows).store.students
    ensures var was := st.students[student];
            var now := GradeAll(st, rows).store.students[student];
            && (course in now.courses <==> course in was.courses)
            && (course in was.courses ==> now.courses[course] == was.courses[course])
    decreases |rows|
  {
    if rows != [] {
      var o := Grade(st, rows[0]);
      var rest := rows[1..];
      GradeStudentStep(st, rows[0], student);
      forall j' | 0 <= j' < |rest| ensures !(rest[j'][0] == student && rest[j'][1] == course) {
        assert rest[j'] == rows[j' + 1];
      }
      GradeAllUntouched(o.store, rest, student, course);
    }
  }

  /** The number of fields `load_data` expects for a file type. */
  function Arity(fileType: string): nat {
    if fileType == "grade" then 4 else 3
  }

  /**
   * `load_data(path, file_type)` on the file's lines. The whole file is read
   * before anything changes, so a malformed line leaves both dictionaries
   * untouched; only a grade file can fail on an unknown cwid. Any type other
   * than "grade" and "student" loads instructors.
   */
  function Load(st: Store, lines: seq<string>, fileType: string): (o: Outcome)
    ensures ReadAll(lines, Arity(fileType), Tab).Failure? <==> o.error.Some? && o.error.value.Malformed?
    ensures o.error.Some? && o.error.value.Malformed? ==>
              o.store == st && o.error.value.cause == ReadAll(lines, Arity(fileType), Tab).error
    ensures fileType != "grade" ==> o.error.None? || o.error.value.Malformed?
  {
    ReadAllMeaning(lines, Arity(fileType), Tab);
    match ReadAll(lines, Arity(fileType), Tab)
    case Failure(e) => Outcome(st, Some(Malformed(e)))
    case Success(rows) =>
      ReadAllRows(lines, Arity(fileType), Tab);
      if fileType == "grade" then
        GradeAllFailure(st, rows);
        GradeAll(st, rows)
      else if fileType == "student" then
        Outcome(st.(students := Upsert(st.students, rows, NewStudent)), None)
      else
        Outcome(st.(instructors := Upsert(st.instructors, rows, NewInstructor)), None)
  }

  /** `Load` once the file has been read into `rows`. */
  lemma LoadRows(st: Store, lines: seq<string>, fileType: string, rows: seq<Fields>)
    requires ReadAll(lines, Arity(fileType), Tab) == Success(rows)
    ensures Wide(rows, Arity(fileType))
    ensures fileType == "grade" ==> Load(st, lines, fileType) == GradeAll(st, rows)
    ensures fileType == "student" ==>
              Load(st, lines, fileType) == Outcome(st.(students := Upsert(st.students, rows, NewStudent)), None)
    ensures fileType != "grade" && fileType != "student" ==>
              Load(st, lines, fileType) == Outcome(st.(instructors := Upsert(st.instructors, rows, NewInstructor)), None)
  {
    ReadAllRows(lines, Arity(fileType), Tab);
  }

  /** Loading keeps the store valid: every record stays under its own cwid. */
  lemma LoadKeepsValid(st: Store, lines: seq<string>, fileType: string)
    requires st.Valid()
    ensures Load(st, lines, fileType).store.Valid()
  {
    match ReadAll(lines, Arity(fileType), Tab)
    case Failure(e) =>
    case Success(rows) =>
      ReadAllRows(lines, Arity(fileType), Tab);
      if fileType == "grade" {
        GradeAllKeeps(st, rows);
      } else if fileType == "student" {
        var m := Upsert(st.students, rows, NewStudent);
        UpsertKeys(st.students, rows, NewStudent);
        forall k | k in m ensures m[k].cwid == k {
          UpsertLatest(st.students, rows, NewStudent, k);
        }
      } else {
        var m := Upsert(st.instructors, rows, NewInstructor);
        UpsertKeys(st.instructors, rows, NewInstructor);
        forall k | k in m ensures m[k].cwid == k && m[k].Valid() {
          UpsertLatest(st.instructors, rows, NewInstructor, k);
        }
      }
  }

  /** The cwid a line carries: its first tab-separated field once stripped. */
  function Cwid(line: string): string {
    Split(Strip(line), Tab)[0]
  }

  /** The cwids of a file's lines. */
  function Cwids(lines: seq<string>): set<string> {
    set i | 0 <= i < |lines| :: Cwid(lines[i])
  }

  /**
   * `University(stud_path, inst_path, grade_path)`: students, then
   * instructors, then grades, stopping at the first step that fails.
   */
  function Build(studentLines: seq<string>, instructorLines: seq<string>, gradeLines: seq<string>): Outcome {
    var enrolled := Load(Empty, studentLines, "student");
    if enrolled.error.Some? then enrolled
    else
      var hired := Load(enrolled.store, instructorLines, "instructor");
      if hired.error.Some? then hired
      else Load(hired.store, gradeLines, "grade")
  }

  /** The rows of a successful read carry the cwids of its lines. */
  lemma ReadAllIds(lines: seq<string>, expected: nat)
    requires ReadAll(lines, expected, Tab).Success?
    requires expected >= 1
    ensures |ReadAll(lines, expected, Tab).value| == |lines|
    ensures Wide(ReadAll(lines, expected, Tab).value, 1)
    ensures forall i :: 0 <= i < |lines| ==> ReadAll(lines, expected, Tab).value[i][0] == Cwid(lines[i])
    ensures Ids(ReadAll(lines, expected, Tab).value) == Cwids(lines)
  {
    var rows := ReadAll(lines, expected, Tab).value;
    ReadAllMeaning(lines, expected, Tab);
    ReadAllRows(lines, expected, Tab);
    forall i | 0 <= i < |lines| ensures rows[i][0] == Cwid(lines[i]) {
      assert ParseLine(lines[i], expected, Tab) == Success(rows[i]);
    }
    assert Ids(rows) == Cwids(lines);
  }

  /** A file whose lines carry pairwise different cwids has as many cwids as lines. */
  lemma DistinctCwidsCount(lines: seq<string>, expected: nat)
    requires ReadAll(lines, expected, Tab).Success? && expected >= 1
    requires forall i, j :: 0 <= i < j < |lines| ==> Cwid(lines[i]) != Cwid(lines[j])
    ensures |Cwids(lines)| == |lines|
  {
    ReadAllIds(lines, expected);
    DistinctIdsCount(ReadAll(lines, expected, Tab).value);
  }

  /**
   * After a successful build the students dictionary holds one record per
   * distinct cwid of the student file, and the instructors dictionary one
   * per distinct cwid of the instructor file.
   */
  lemma BuildKeys(studentLines: seq<string>, instructorLines: seq<string>, gradeLines: seq<string>)
    requires Build(studentLines, instructorLines, gradeLines).error.None?
    ensures ReadAll(studentLines, 3, Tab).Success? && ReadAll(instructorLines, 3, Tab).Success?
    ensures Build(studentLines, instructorLines, gradeLines).store.students.Keys == Cwids(studentLines)
    ensures Build(studentLines, instructorLines, gradeLines).store.instructors.Keys == Cwids(instructorLines)
  {
    var enrolled := Load(Empty, studentLines, "student");
    assert enrolled.error.None?;
    var studentRows := ReadAll(studentLines, 3, Tab).value;
    LoadRows(Empty, studentLines, "student", studentRows);
    ReadAllIds(studentLines, 3);
    UpsertKeys(Empty.students, studentRows, NewStudent);
    var hired := Load(enrolled.store, instructorLines, "instructor");
    assert hired.error.None?;
    var instructorRows := ReadAll(instructorLines, 3, Tab).value;
    LoadRows(enrolled.store, instructorLines, "instructor", instructorRows);
    ReadAllIds(instructorLines, 3);
    UpsertKeys(enrolled.store.instructors, instructorRows, NewInstructor);
    var gradeRows := ReadAll(gradeLines, 4, Tab).value;
    LoadRows(hired.store, gradeLines, "grade", gradeRows);
    GradeAllKeeps(hired.store, gradeRows);
  }

  /**
   * The count the source's test asserts: when no two lines of the student
   * file share a cwid, the students dictionary holds as many records as the
   * file has lines; the same for instructors.
   */
  lemma BuildCountsLines(studentLines: seq<string>, instructorLines: seq<string>, gradeLines: seq<string>)
    requires Build(studentLines, instructorLines, gradeLines).error.None?
    ensures (forall i, j :: 0 <= i < j < |studentLines| ==> Cwid(studentLines[i]) != Cwid(studentLines[j]))
            ==> |Build(studentLines, instructorLines, gradeLines).store.students| == |studentLines|
    ensures (forall i, j :: 0 <= i < j < |instructorLines| ==> Cwid(instructorLines[i]) != Cwid(instructorLines[j]))
            ==> |Build(studentLines, instructorLines, gradeLines).store.instructors| == |instructorLines|
  {
    var o := Build(studentLines, instructorLines, gradeLines);
    BuildKeys(studentLines, instructorLines, gradeLines);
    if forall i, j :: 0 <= i < j < |studentLines| ==> Cwid(studentLines[i]) != Cwid(studentLines[j]) {
      DistinctCwidsCount(studentLines, 3);
      assert |o.store.students| == |o.store.students.Keys|;
    }
    if forall i, j :: 0 <= i < j < |instructorLines| ==> Cwid(instructorLines[i]) != Cwid(instructorLines[j]) {
      DistinctCwidsCount(instructorLines, 3);
      assert |o.store.instructors| == |o.store.instructors.Keys|;
    }
  }
}
