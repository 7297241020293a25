/**
 * `University`: the two dictionaries of student and instructor objects keyed
 * by cwid, and `load_data`, which fills them from a file's lines and updates
 * the objects in place. Every method is proved to do to the dictionaries
 * exactly what the load semantics of module Store says.
 */
module Registrar {
  import opened Wrappers
  import opened Reader
  import opened Entities
  import opened Store

  class University {
    var students: map<string, Student>
    var instructors: map<string, Instructor>

    /** Every student object sits under its own cwid, so two cwids never share one. */
    ghost predicate StudentsValid()
      reads this`students
    {
      forall k :: k in students ==> students[k].cwid == k
    }

    /** Every instructor object sits under its own cwid and keeps its course order. */
    ghost predicate InstructorsValid()
      reads this`instructors, instructors.Values
    {
      forall k :: k in instructors ==> instructors[k].cwid == k && instructors[k].Valid()
    }

    ghost predicate Valid()
      reads this, students.Values, instructors.Values
    {
      StudentsValid() && InstructorsValid()
    }

    ghost function StudentsView(): map<string, StudentRec>
      reads this`students, students.Values
    {
      map k | k in students :: students[k].Value()
    }

    ghost function InstructorsView(): map<string, InstructorRec>
      reads this`instructors, instructors.Values
    {
      map k | k in instructors :: instructors[k].Value()
    }

    /** The values the two dictionaries hold. */
    ghost function View(): Store
      reads this, students.Values, instructors.Values
    {
      Store(StudentsView(), InstructorsView())
    }

    /** The empty dictionaries `__init__` starts from. */
    constructor ()
      ensures Valid() && View() == Empty
      ensures students == map[] && instructors == map[]
    {
      students := map[];
      instructors := map[];
    }

    /**
     * `__init__(stud_path, inst_path, grade_path)` on the three files' lines:
     * enrol students, hire instructors, release scores, stopping at the first
     * load step that fails.
     */
    static method Create(studentLines: seq<string>, instructorLines: seq<string>, gradeLines: seq<string>)
      returns (u: University, error: Option<LoadError>)
      ensures fresh(u) && u.Valid()
      ensures Outcome(u.View(), error) == Build(studentLines, instructorLines, gradeLines)
    {
      u := new University();
      error := u.EnrollStudents(studentLines);
      if error.Some? {
        return;
      }
      error := u.HireInstructors(instructorLines);
      if error.Some? {
        return;
      }
      error := u.ReleaseScore(gradeLines);
    }

    /** `enroll_students`: `load_data` on the students file. */
    method EnrollStudents(lines: seq<string>) returns (error: Option<LoadError>)
      requires Valid()
      modifies this, students.Values, instructors.Values
      ensures Valid()
      ensures Outcome(View(), error) == Load(old(View()), lines, "student")
      ensures forall s :: s in students.Values ==> s in old(students.Values) || fresh(s)
      ensures forall s :: s in instructors.Values ==> s in old(instructors.Values) || fresh(s)
    {
      error := LoadData(lines, "student");
    }

    /** `hire_instructors`: `load_data` on the instructors file. */
    method HireInstructors(lines: seq<string>) returns (error: Option<LoadError>)
      requires Valid()
      modifies this, students.Values, instructors.Values
      ensures Valid()
      ensures Outcome(View(), error) == Load(old(View()), lines, "instructor")
      ensures forall s :: s in students.Values ==> s in old(students.Values) || fresh(s)
      ensures forall s :: s in instructors.Values ==> s in old(instructors.Values) || fresh(s)
    {
      error := LoadData(lines, "instructor");
    }

    /** `release_score`: `load_data` on the grades file. */
    method ReleaseScore(lines: seq<string>) returns (error: Option<LoadError>)
      requires Valid()
      modifies this, students.Values, instructors.Values
      ensures Valid()
      ensures Outcome(View(), error) == Load(old(View()), lines, "grade")
      ensures forall s :: s in students.Values ==> s in old(students.Values) || fresh(s)
      ensures forall s :: s in instructors.Values ==> s in old(instructors.Values) || fresh(s)
    {
      error := LoadData(lines, "grade");
    }

    /**
     * `load_data`: reads the whole file first, then applies its rows; the
     * dictionaries end up as `Load` says, including after an error.
     */
    method LoadData(lines: seq<string>, fileType: string) returns (error: Option<LoadError>)
      requires Valid()
      modifies this, students.Values, instructors.Values
      ensures Valid()
      ensures Outcome(View(), error) == Load(old(View()), lines, fileType)
      ensures forall s :: s in students.Values ==> s in old(students.Values) || fresh(s)
      ensures forall s :: s in instructors.Values ==> s in old(instructors.Values) || fresh(s)
    {
      var rows, failure := FileReader(lines, Arity(fileType), Tab);
      assert View() == old(View());  // reading the lines touches no object
      if failure.Some? {
        return Some(Malformed(failure.value));
      }
      LoadRows(old(View()), lines, fileType, rows);
      if fileType == "grade" {
        error := ReleaseRows(rows);
      } else {
        UpsertRows(rows, fileType);
        error := None;
      }
    }

    /**
     * The student/instructor loop of `load_data`: one new object per row,
     * stored under the row's cwid.
     */
    method UpsertRows(rows: seq<Fields>, fileType: string)
      requires Valid() && Wide(rows, 3)
      modifies this
      ensures Valid()
      ensures fileType == "student" ==>
                View() == old(View()).(students := Upsert(old(StudentsView()), rows, NewStudent))
      ensures fileType != "student" ==>
                View() == old(View()).(instructors := Upsert(old(InstructorsView()), rows, NewInstructor))
      ensures forall s :: s in students.Values ==> s in old(students.Values) || fresh(s)
      ensures forall s :: s in instructors.Values ==> s in old(instructors.Values) || fresh(s)
    {
      var i := 0;
      while i < |rows|
        invariant 0 <= i <= |rows|
        invariant Valid()
        invariant fileType == "student" ==>
                    && Upsert(StudentsView(), rows[i..], NewStudent) == Upsert(old(StudentsView()), rows, NewStudent)
                    && instructors == old(instructors)
        invariant fileType != "student" ==>
                    && Upsert(InstructorsView(), rows[i..], NewInstructor) == Upsert(old(InstructorsView()), rows, NewInstructor)
                    && students == old(students)
        invariant forall s :: s in students.Values ==> s in old(students.Values) || fresh(s)
        invariant forall s :: s in instructors.Values ==> s in old(instructors.Values) || fresh(s)
      {
        var row := rows[i];
        assert rows[i..][0] == row && rows[i..][1..] == rows[i + 1..];
        if fileType == "student" {
          Enroll(row[0], row[1], row[2]);
        } else {
          Hire(row[0], row[1], row[2]);
        }
        i := i + 1;
      }
    }

    /** `self.students[cwid] = Student(cwid, name, major)`. */
    method Enroll(cwid: string, name: string, major: string)
      requires StudentsValid()
      modifies this`students
      ensures StudentsValid()
      ensures StudentsView() == old(StudentsView())[cwid := NewStudent(cwid, name, major)]
      ensures forall s :: s in students.Values ==> s in old(students.Values) || fresh(s)
    {
      var student := new Student(cwid, name, major);
      students := students[cwid := student];
      assert StudentsView() == old(StudentsView())[cwid := student.Value()];
    }

    /** `self.instructors[cwid] = Instructor(cwid, name, department)`. */
    method Hire(cwid: string, name: string, department: string)
      requires InstructorsValid()
      modifies this`instructors
      ensures InstructorsValid()
      ensures InstructorsView() == old(InstructorsView())[cwid := NewInstructor(cwid, name, department)]
      ensures forall s :: s in instructors.Values ==> s in old(instructors.Values) || fresh(s)
    {
      var instructor := new Instructor(cwid, name, department);
      instructors := instructors[cwid := instructor];
      assert InstructorsView() == old(InstructorsView())[cwid := instructor.Value()];
    }

    /**
     * The grade loop of `load_data`: for each row, the student's grade is
     * written, then the instructor's count grows; an unknown cwid stops the
     * loop with the objects as they are at that point.
     */
    method ReleaseRows(rows: seq<Fields>) returns (error: Option<LoadError>)
      requires Valid() && Wide(rows, 4)
      modifies students.Values, instructors.Values
      ensures Valid()
      ensures Outcome(View(), error) == GradeAll(old(View()), rows)
    {
      var i := 0;
      while i < |rows|
        invariant 0 <= i <= |rows|
        invariant Valid()
        invariant GradeAll(View(), rows[i..]) == GradeAll(old(View()), rows)
      {
        var row := rows[i];
        assert rows[i..][0] == row && rows[i..][1..] == rows[i + 1..];
        error := ReleaseRow(row);
        if error.Some? {
          return;
        }
        i := i + 1;
      }
      error := None;
    }

    /**
     * One grade line: the student's grade is written first, so an unknown
     * instructor stops the load after that write.
     */
    method ReleaseRow(row: Fields) returns (error: Option<LoadError>)
      requires Valid() && |row| >= 4
      modifies students.Values, instructors.Values
      ensures Valid()
      ensures Outcome(View(), error) == Grade(old(View()), row)
    {
      if row[0] !in students {
        return Some(UnknownStudent(row[0]));
      }
      GradeStudent(row[0], row[1], row[2]);
      if row[3] !in instructors {
        return Some(UnknownInstructor(row[3]));
      }
      CountStudent(row[3], row[1]);
      error := None;
    }

    /** `self.students[cwid].add_grade(course, grade)`. */
    method GradeStudent(cwid: string, course: string, grade: string)
      requires cwid in students && Valid()
      modifies students[cwid]
      ensures Valid()
      ensures InstructorsView() == old(InstructorsView())
      ensures StudentsView() == old(StudentsView())[cwid := old(StudentsView())[cwid].WithGrade(course, grade)]
    {
      var student := students[cwid];
      assert forall k :: k in students && k != cwid ==> students[k] != student;
      student.AddGrade(course, grade);
    }

    /** `self.instructors[cwid].add_student(course)`. */
    method CountStudent(cwid: string, course: string)
      requires cwid in instructors && Valid()
      modifies instructors[cwid]
      ensures Valid()
      ensures StudentsView() == old(StudentsView())
      ensures InstructorsView() == old(InstructorsView())[cwid := old(InstructorsView())[cwid].WithStudent(course)]
    {
      var instructor := instructors[cwid];
      assert forall k :: k in instructors && k != cwid ==> instructors[k] != instructor;
      instructor.AddStudent(course);
    }
  }
}
