/** Course of question1_university_system: a validated course with a capacity-bounded
    roster of distinct students. Adding or removing a student also updates that
    student's own list of enrolled course codes. */
module SystemCourse {
  import opened Outcomes
  import opened Seqs
  import Text
  import Display
  import SystemStudent

  type Student = SystemStudent.Student

  /** The max_capacity a course gets when none is given. */
  const DefaultMaxCapacity: int := 30

  /** The constructor's validation, in its order: a code blank after stripping, then
      credits, then capacity. */
  function CheckArgs(courseCode: string, credits: int, maxCapacity: int): (o: Outcome)
    ensures o == Pass <==> Text.StripUpper(courseCode) != [] && credits > 0 && maxCapacity > 0
  {
    if Text.StripUpper(courseCode) == [] then Fail("course_code cannot be empty.")
    else if credits <= 0 then Fail("credits must be a positive integer.")
    else if maxCapacity <= 0 then Fail("max_capacity must be a positive integer.")
    else Pass
  }

  /** A code is refused as empty exactly when it is all whitespace, whatever the other
      arguments. */
  lemma CheckArgsBlank(courseCode: string, credits: int, maxCapacity: int)
    ensures CheckArgs(courseCode, credits, maxCapacity) == Fail("course_code cannot be empty.") <==>
      forall k :: 0 <= k < |courseCode| ==> Text.IsSpace(courseCode[k])
  {
    Text.StripUpperEmpty(courseCode);
    assert |"course_code cannot be empty."| != |"credits must be a positive integer."|;
    assert |"course_code cannot be empty."| != |"max_capacity must be a positive integer."|;
  }

  /** add_student: the roster and the student's course list afterwards, or the error
      raised. The capacity and duplicate checks come first; then the student enrols
      in the code, and a failure there propagates with nothing changed. */
  function Admit(roster: seq<Student>, maxCapacity: int, code: string, student: Student,
                 courses: seq<string>): (r: Result<(seq<Student>, seq<string>)>)
    ensures r.Ok? <==>
      |roster| < maxCapacity && student !in roster && SystemStudent.Enroll(courses, code).Ok?
    ensures |roster| >= maxCapacity ==> r == Err("Course " + code + " is full.")
    ensures r.Ok? ==> r.value.0 == roster + [student]
  {
    if |roster| >= maxCapacity then Err("Course " + code + " is full.")
    else if student in roster then Err(student.name + " is already enrolled in " + code + ".")
    else
      match SystemStudent.Enroll(courses, code)
      case Err(m) => Err(m)
      case Ok(cs) => Ok((roster + [student], cs))
  }

  /** A successful add keeps the roster within capacity and duplicate-free, puts the
      student on it, and leaves the course code at the end of the student's list. */
  lemma AdmitKeepsCourse(roster: seq<Student>, maxCapacity: int, code: string, student: Student,
                         courses: seq<string>)
    requires |roster| <= maxCapacity && Distinct(roster)
    requires SystemStudent.IsCode(code) && SystemStudent.CourseListOk(courses)
    requires Admit(roster, maxCapacity, code, student, courses).Ok?
    ensures var (r, cs) := Admit(roster, maxCapacity, code, student, courses).value;
      |r| <= maxCapacity && Distinct(r) && student in r
      && cs == courses + [code] && SystemStudent.CourseListOk(cs)
  {
    Text.StripUpperUnchanged(code);
    SystemStudent.EnrollKeepsCourseList(courses, code);
    AppendFresh(roster, student);
  }

  /** remove_student: the roster without the student and the student's list without
      the course code, or the error raised when the student is not on the roster. */
  function Drop(roster: seq<Student>, code: string, student: Student,
                courses: seq<string>): (r: Result<(seq<Student>, seq<string>)>)
    ensures r.Ok? <==> student in roster
    ensures r.Ok? ==> |r.value.0| == |roster| - 1 && |r.value.1| <= |courses|
  {
    if student !in roster then Err(student.name + " is not enrolled in " + code + ".")
    else Ok((RemoveFirst(roster, student), RemoveFirst(courses, code)))
  }

  /** After a removal neither the student nor the code is left, every other student
      and code stays, and the course list keeps its invariant. */
  lemma DropKeepsCourse(roster: seq<Student>, code: string, student: Student, courses: seq<string>)
    requires Distinct(roster) && SystemStudent.CourseListOk(courses)
    requires Drop(roster, code, student, courses).Ok?
    ensures var (r, cs) := Drop(roster, code, student, courses).value;
      Distinct(r) && student !in r && code !in cs
      && (forall t :: t in r <==> t in roster && t != student)
      && (forall c :: c in cs <==> c in courses && c != code)
      && SystemStudent.CourseListOk(cs)
  {
    RemoveFirstDistinct(roster, student);
    RemoveFirstDistinct(courses, code);
  }

  /** Removing a student right after adding them restores both the roster and the
      student's course list. */
  lemma AdmitThenDrop(roster: seq<Student>, maxCapacity: int, code: string, student: Student,
                      courses: seq<string>)
    requires SystemStudent.IsCode(code)
    requires Admit(roster, maxCapacity, code, student, courses).Ok?
    ensures var (r, cs) := Admit(roster, maxCapacity, code, student, courses).value;
      Drop(r, code, student, cs) == Ok((roster, courses))
  {
    Text.StripUpperUnchanged(code);
    var cs := Admit(roster, maxCapacity, code, student, courses).value.1;
    assert cs == courses + [code];
    RemoveFirstAppended(roster, student);
    RemoveFirstAppended(courses, code);
  }

  class Course {
    const code: string
    const name: string
    const credits: int
    const instructor: string
    const maxCapacity: int
    /** enrolled_students. */
    var roster: seq<Student>

    ghost predicate Valid()
      reads this
    {
      && SystemStudent.IsCode(code) && credits > 0 && maxCapacity > 0
      && |roster| <= maxCapacity && Distinct(roster)
    }

    /** __init__ on arguments that pass validation. */
    constructor(courseCode: string, name: string, credits: int, instructor: string, maxCapacity: int)
      requires CheckArgs(courseCode, credits, maxCapacity) == Pass
      ensures Valid()
      ensures code == Text.StripUpper(courseCode) && this.name == name && this.credits == credits
      ensures this.instructor == instructor && this.maxCapacity == maxCapacity
      ensures roster == []
    {
      code := Text.StripUpper(courseCode);
      this.name := name;
      this.credits := credits;
      this.instructor := instructor;
      this.maxCapacity := maxCapacity;
      roster := [];
    }

    /** __init__ as called: a new course, or the ValueError of the first failed check. */
    static method New(courseCode: string, name: string, credits: int, instructor: string,
                      maxCapacity: int) returns (r: Result<Course>)
      ensures CheckArgs(courseCode, credits, maxCapacity).Fail? ==>
        r == Err(CheckArgs(courseCode, credits, maxCapacity).message)
      ensures CheckArgs(courseCode, credits, maxCapacity) == Pass ==>
        r.Ok? && fresh(r.value) && r.value.Valid() && r.value.roster == []
        && r.value.code == Text.StripUpper(courseCode) && r.value.maxCapacity == maxCapacity
        && r.value.name == name && r.value.credits == credits && r.value.instructor == instructor
    {
      var check := CheckArgs(courseCode, credits, maxCapacity);
      if check.Fail? {
        return Err(check.message);
      }
      var c := new Course(courseCode, name, credits, instructor, maxCapacity);
      r := Ok(c);
    }

    /** is_full: with the invariant, full means the roster is exactly at capacity. */
    function IsFull(): (b: bool)
      reads this
      ensures Valid() ==> (b <==> |roster| == maxCapacity)
    {
      |roster| >= maxCapacity
    }

    /** add_student, enrolling the student in this course's code as well. */
    method AddStudent(student: Student) returns (o: Outcome)
      requires Valid() && student.Valid()
      modifies this`roster, student`enrolledCourses
      ensures Valid() && student.Valid()
      ensures var r := Admit(old(roster), maxCapacity, code, student, old(student.enrolledCourses));
        r.Ok? ==>
          o == Pass && roster == r.value.0 && student.enrolledCourses == r.value.1
      ensures var r := Admit(old(roster), maxCapacity, code, student, old(student.enrolledCourses));
        r.Err? ==>
          o == Fail(r.message) && roster == old(roster)
          && student.enrolledCourses == old(student.enrolledCourses)
    {
      if IsFull() {
        return Fail("Course " + code + " is full.");
      }
      if student in roster {
        return Fail(student.name + " is already enrolled in " + code + ".");
      }
      o := student.EnrollCourse(code);
      if o.Fail? {
        return;
      }
      AdmitKeepsCourse(roster, maxCapacity, code, student, old(student.enrolledCourses));
      roster := roster + [student];
    }

    /** remove_student, dropping this course's code from the student's list as well;
        the student's grades stay as they are. */
    method RemoveStudent(student: Student) returns (o: Outcome)
      requires Valid() && student.Valid()
      modifies this`roster, student`enrolledCourses
      ensures Valid() && student.Valid()
      ensures student.grades == old(student.grades)
      ensures var r := Drop(old(roster), code, student, old(student.enrolledCourses));
        r.Ok? ==>
          o == Pass && roster == r.value.0 && student.enrolledCourses == r.value.1
      ensures var r := Drop(old(roster), code, student, old(student.enrolledCourses));
        r.Err? ==>
          o == Fail(r.message) && roster == old(roster)
          && student.enrolledCourses == old(student.enrolledCourses)
    {
      if student !in roster {
        return Fail(student.name + " is not enrolled in " + code + ".");
      }
      DropKeepsCourse(roster, code, student, student.enrolledCourses);
      roster := RemoveFirst(roster, student);
      if code in student.enrolledCourses {
        student.enrolledCourses := RemoveFirst(student.enrolledCourses, code);
      }
      o := Pass;
    }

    /** __str__. */
    function Summary(): (s: string)
      reads this
      ensures |s| > |code| && s[..|code|] == code
      ensures |s| == |code| + |name| + |Display.Ratio(|roster|, maxCapacity)| + 6
      ensures s[..|code| + |name| + 3] == code + " - " + name
      ensures s[|s| - |Display.Ratio(|roster|, maxCapacity)| - 3..]
        == " (" + Display.Ratio(|roster|, maxCapacity) + ")"
    {
      Display.CourseSummary(code, name, |roster|, maxCapacity)
    }
  }

  /** A course of capacity two, as in the demo: two students get in, each enrolled in
      its code, and a third is refused as the course is full. */
  lemma CapacityTwo(code: string, a: Student, b: Student, x: Student)
    requires SystemStudent.IsCode(code) && a != b
    ensures Admit([], 2, code, a, []) == Ok(([a], [code]))
    ensures Admit([a], 2, code, b, []) == Ok(([a, b], [code]))
    ensures Admit([a, b], 2, code, x, []) == Err("Course " + code + " is full.")
  {
    Text.StripUpperUnchanged(code);
    var none: seq<Student> := [];
    assert none + [a] == [a] && [a] + [b] == [a, b];
    assert SystemStudent.Enroll([], code) == Ok([code]) by {
      assert [] + [code] == [code];
    }
  }

  /** Removing a student takes the course's code off their list, and adding them back
      then succeeds again. */
  method RemoveThenReadd(code: string) returns (c: Course, a: Student, removed: Outcome, readded: Outcome)
    requires SystemStudent.IsCode(code)
    ensures removed == Pass && readded == Pass
    ensures c.roster == [a] && a.enrolledCourses == [code]
  {
    Text.StripUpperUnchanged(code);
    c := new Course(code, "Statistics for Data Science", 3, "Dr. Perera", DefaultMaxCapacity);
    a := new SystemStudent.Student("Lahiru", "STU3001", "MSc DS", "2026-02-23");
    var o := c.AddStudent(a);
    removed := c.RemoveStudent(a);
    assert c.roster == [] && a.enrolledCourses == [];
    readded := c.AddStudent(a);
  }
}
