/**
 * The two record kinds of the store: a student (cwid, name, major and the
 * grade of every course taken) and an instructor (cwid, name, department and
 * the number of students per course taught). Each is a class, as in the
 * source, whose course dictionary its methods update in place; the datatypes
 * are the values those objects hold, which the load semantics works on.
 */
module Entities {
  import opened Order

  /** A student's value: the course dictionary maps a course to its latest grade. */
  datatype StudentRec = StudentRec(cwid: string, name: string, major: string, courses: map<string, string>)
  {
    /** `add_grade`: the course's grade becomes `grade`. */
    function WithGrade(course: string, grade: string): StudentRec {
      this.(courses := courses[course := grade])
    }
  }

  /** A freshly created student: no grades yet. */
  function NewStudent(cwid: string, name: string, major: string): StudentRec {
    StudentRec(cwid, name, major, map[])
  }

  /**
   * An instructor's value. `courses` maps a course to the number of students
   * taught in it; `order` lists those courses in the order they were first
   * counted, which is the order in which the source's dictionary yields them.
   */
  datatype InstructorRec = InstructorRec(cwid: string, name: string, department: string,
                                         courses: map<string, nat>, order: seq<string>)
  {
    /** `order` lists each counted course exactly once. */
    ghost predicate Valid() {
      && (forall c :: c in courses <==> c in order)
      && (forall i, j :: 0 <= i < j < |order| ==> order[i] != order[j])
    }

    /** The count the source's `defaultdict(int)` reports for `course`. */
    function Count(course: string): nat {
      if course in courses then courses[course] else 0
    }

    /**
     * `add_student`: the count for `course` grows by exactly one (from 0 when
     * unseen), no other count changes, and a course seen for the first time
     * goes to the end of `order`.
     */
    function WithStudent(course: string): (r: InstructorRec)
      ensures r.Count(course) == Count(course) + 1
      ensures forall c :: c != course ==> r.Count(c) == Count(c)
      ensures r.courses.Keys == courses.Keys + {course}
      ensures Valid() ==> r.Valid()
      ensures (r.cwid, r.name, r.department) == (cwid, name, department)
    {
      if course in courses then this.(courses := courses[course := courses[course] + 1])
      else this.(courses := courses[course := 1], order := order + [course])
    }
  }

  /** A freshly created instructor: no courses counted yet. */
  function NewInstructor(cwid: string, name: string, department: string): InstructorRec {
    InstructorRec(cwid, name, department, map[], [])
  }

  /** A later grade for the same course replaces the earlier one. */
  lemma RegradeKeepsLast(s: StudentRec, course: string, first: string, second: string)
    ensures s.WithGrade(course, first).WithGrade(course, second) == s.WithGrade(course, second)
  {
  }

  /** The row `Student.summary` returns: cwid, name and the sorted graded courses. */
  datatype StudentRow = StudentRow(cwid: string, name: string, courses: seq<string>)

  /** One row `Instructor.summary` yields: a course and its student count. */
  datatype InstructorRow = InstructorRow(cwid: string, name: string, department: string,
                                         course: string, students: nat)

  class Student {
    const cwid: string
    const name: string
    const major: string
    var courses: map<string, string>

    ghost function Value(): StudentRec
      reads this
    {
      StudentRec(cwid, name, major, courses)
    }

    constructor (cwid: string, name: string, major: string)
      ensures Value() == NewStudent(cwid, name, major)
    {
      this.cwid := cwid;
      this.name := name;
      this.major := major;
      this.courses := map[];
    }

    /**
     * Records `grade` for `course`: that course now has this grade, whatever
     * it had before, and every other course keeps its grade.
     */
    method AddGrade(course: string, grade: string)
      modifies this
      ensures Value() == old(Value()).WithGrade(course, grade)
      ensures courses.Keys == old(courses).Keys + {course} && courses[course] == grade
      ensures forall c :: c in old(courses) && c != course ==> courses[c] == old(courses)[c]
    {
      courses := courses[course := grade];
    }

    /**
     * `[cwid, name, sorted(courses)]`: every graded course exactly once, in
     * ascending order, whatever its grade.
     */
    function Summary(): (row: StudentRow)
      reads this
      ensures row.cwid == cwid && row.name == name
      ensures Ascending(row.courses)
      ensures |row.courses| == |courses|
      ensures forall c :: c in row.courses <==> c in courses
    {
      StudentRow(cwid, name, SortedKeys(courses.Keys))
    }
  }

  class Instructor {
    const cwid: string
    const name: string
    const department: string
    var courses: map<string, nat>
    var order: seq<string>

    ghost function Value(): InstructorRec
      reads this
    {
      InstructorRec(cwid, name, department, courses, order)
    }

    ghost predicate Valid()
      reads this
    {
      Value().Valid()
    }

    constructor (cwid: string, name: string, department: string)
      ensures Valid() && Value() == NewInstructor(cwid, name, department)
    {
      this.cwid := cwid;
      this.name := name;
      this.department := department;
      this.courses := map[];
      this.order := [];
    }

    /** Counts one more student in `course`, starting from 0 for a new course. */
    method AddStudent(course: string)
      requires Valid()
      modifies this
      ensures Valid()
      ensures Value() == old(Value()).WithStudent(course)
    {
      if course in courses {
        courses := courses[course := courses[course] + 1];
      } else {
        courses := courses[course := 1];
        order := order + [course];
      }
    }

    /**
     * The rows `summary` yields: exactly one per counted course, in the
     * order the courses were first counted, each carrying that course's
     * accumulated count.
     */
    function Summary(): (rows: seq<InstructorRow>)
      requires Valid()
      reads this
      ensures |rows| == |order| == |courses|
      ensures forall i :: 0 <= i < |rows| ==>
                rows[i] == InstructorRow(cwid, name, department, order[i], courses[order[i]])
      ensures forall c :: c in courses <==> exists i :: 0 <= i < |rows| && rows[i].course == c
      ensures forall i, j :: 0 <= i < j < |rows| ==> rows[i].course != rows[j].course
    {
      CoursesCountMatchesOrder(courses, order);
      var order, courses := order, courses;
      seq(|order|, i requires 0 <= i < |order| => InstructorRow(cwid, name, department, order[i], courses[order[i]]))
    }
  }

  /** A duplicate-free list of exactly the keys of a map is as long as the map. */
  lemma {:induction false} CoursesCountMatchesOrder(courses: map<string, nat>, order: seq<string>)
    requires forall c :: c in courses <==> c in order
    requires forall i, j :: 0 <= i < j < |order| ==> order[i] != order[j]
    ensures |order| == |courses|
    decreases |order|
  {
    if order == [] {
      assert courses.Keys == {};
    } else {
      var c := order[|order| - 1];
      var init := order[..|order| - 1];
      var rest := courses - {c};
      forall d ensures d in rest <==> d in init {
        if d in init {
          var k :| 0 <= k < |init| && init[k] == d;
          assert order[k] == d;
        }
        if d in order && d != c {
          var k :| 0 <= k < |order| && order[k] == d;
          assert k < |order| - 1;
          assert init[k] == d;
        }
      }
      CoursesCountMatchesOrder(rest, init);
      assert |rest| == |courses| - 1;
    }
  }
}
