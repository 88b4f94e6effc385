/** Course of question1_university_management_system: a roster of distinct students
    bounded by the capacity. Unlike the other variant, the constructor validates
    nothing and adding or removing a student leaves the student object untouched. */
module MgmtCourse {
  import opened Outcomes
  import opened Seqs
  import Text
  import Display
  import MgmtStudent

  type Student = MgmtStudent.Student

  /** The max_capacity a course gets when none is given. */
  const DefaultMaxCapacity: int := 30

  /** How many students a course of this capacity can hold: none when the capacity
      is zero or negative, as nothing stops such a course being built. */
  function Room(maxCapacity: int): (n: nat)
    ensures n >= maxCapacity
  {
    if maxCapacity < 0 then 0 else maxCapacity
  }

  /** add_student: the roster afterwards, or the error raised. */
  function Admit(roster: seq<Student>, maxCapacity: int, code: string, student: Student): (r: Result<seq<Student>>)
    ensures r.Ok? <==> |roster| < maxCapacity && student !in roster
    ensures |roster| >= maxCapacity ==> r == Err("Course " + code + " is full.")
  {
    if |roster| >= maxCapacity then Err("Course " + code + " is full.")
    else if student in roster then Err(student.Name() + " is already enrolled in " + code + ".")
    else Ok(roster + [student])
  }

  /** A successful add appends the student once at the end, keeping the roster
      duplicate-free and within the room the capacity gives. */
  lemma AdmitKeepsRoster(roster: seq<Student>, maxCapacity: int, code: string, student: Student)
    requires |roster| <= Room(maxCapacity) && Distinct(roster)
    requires Admit(roster, maxCapacity, code, student).Ok?
    ensures var r := Admit(roster, maxCapacity, code, student).value;
      |r| <= Room(maxCapacity) && Distinct(r) && r == roster + [student]
  {
    AppendFresh(roster, student);
  }

  /** remove_student: the roster without the student, or the error raised when the
      student is not on it. */
  function Drop(roster: seq<Student>, code: string, student: Student): (r: Result<seq<Student>>)
    ensures r.Ok? <==> student in roster
    ensures r.Ok? ==> |r.value| == |roster| - 1
  {
    if student !in roster then Err(student.Name() + " is not enrolled in " + code + ".")
    else Ok(RemoveFirst(roster, student))
  }

  /** A removal takes out exactly that student and keeps every other. */
  lemma DropRemovesOnly(roster: seq<Student>, code: string, student: Student)
    requires Distinct(roster)
    requires Drop(roster, code, student).Ok?
    ensures var r := Drop(roster, code, student).value;
      Distinct(r) && student !in r && forall t :: t in r <==> t in roster && t != student
  {
    RemoveFirstDistinct(roster, student);
  }

  /** Removing a student right after adding them restores the roster. */
  lemma AdmitThenDrop(roster: seq<Student>, maxCapacity: int, code: string, student: Student)
    requires Admit(roster, maxCapacity, code, student).Ok?
    ensures Drop(Admit(roster, maxCapacity, code, student).value, code, student) == Ok(roster)
  {
    RemoveFirstAppended(roster, student);
  }

  class Course {
    const code: string
    const name: string
    const credits: int
    const instructor: string
    const maxCapacity: int
    /** enrolled_students. */
    var roster: seq<Student>

    ghost predicate Valid()
      reads this
    {
      |roster| <= Room(maxCapacity) && Distinct(roster)
    }

    /** __init__: stores the normalised code and the other arguments as given. */
    constructor(courseCode: string, name: string, credits: int, instructor: string, maxCapacity: int)
      ensures Valid()
      ensures code == Text.StripUpper(courseCode) && this.name == name && this.credits == credits
      ensures this.instructor == instructor && this.maxCapacity == maxCapacity
      ensures roster == []
    {
      code := Text.StripUpper(courseCode);
      this.name := name;
      this.credits := credits;
      this.instructor := instructor;
      this.maxCapacity := maxCapacity;
      roster := [];
    }

    /** is_full: with the invariant, full means the roster fills all the room there
        is. */
    function IsFull(): (b: bool)
      reads this
      ensures Valid() ==> (b <==> |roster| == Room(maxCapacity))
    {
      |roster| >= maxCapacity
    }

    /** add_student: appends the student, or fails with the roster unchanged. */
    method AddStudent(student: Student) returns (o: Outcome)
      requires Valid()
      modifies this`roster
      ensures Valid()
      ensures Admit(old(roster), maxCapacity, code, student).Ok? ==>
        o == Pass && roster == Admit(old(roster), maxCapacity, code, student).value
      ensures Admit(old(roster), maxCapacity, code, student).Err? ==>
        o == Fail(Admit(old(roster), maxCapacity, code, student).message) && roster == old(roster)
    {
      if IsFull() {
        return Fail("Course " + code + " is full.");
      }
      if student in roster {
        return Fail(student.Name() + " is already enrolled in " + code + ".");
      }
      AdmitKeepsRoster(roster, maxCapacity, code, student);
      roster := roster + [student];
      o := Pass;
    }

    /** remove_student: removes the student, or fails with the roster unchanged. */
    method RemoveStudent(student: Student) returns (o: Outcome)
      requires Valid()
      modifies this`roster
      ensures Valid()
      ensures Drop(old(roster), code, student).Ok? ==>
        o == Pass && roster == Drop(old(roster), code, student).value
      ensures Drop(old(roster), code, student).Err? ==>
        o == Fail(Drop(old(roster), code, student).message) && roster == old(roster)
    {
      if student !in roster {
        return Fail(student.Name() + " is not enrolled in " + code + ".");
      }
      DropRemovesOnly(roster, code, student);
      roster := RemoveFirst(roster, student);
      o := Pass;
    }

    /** __str__. */
    function Summary(): (s: string)
      reads this
      ensures |s| > |code| && s[..|code|] == code
      ensures |s| == |code| + |name| + |Display.Ratio(|roster|, maxCapacity)| + 6
      ensures s[..|code| + |name| + 3] == code + " - " + name
      ensures s[|s| - |Display.Ratio(|roster|, maxCapacity)| - 3..]
        == " (" + Display.Ratio(|roster|, maxCapacity) + ")"
    {
      Display.CourseSummary(code, name, |roster|, maxCapacity)
    }
  }

  /** A course built with a capacity of zero or less is full from the start and
      refuses every student. */
  lemma NonPositiveCapacityRefusesAll(maxCapacity: int, code: string, student: Student)
    requires maxCapacity <= 0
    ensures Admit([], maxCapacity, code, student) == Err("Course " + code + " is full.")
  {
  }

  /** Adding a student to a course leaves their own course list empty, so recording
      a grade for that course afterwards raises "not enrolled". */
  method GradeAfterAddStudent(code: string) returns (c: Course, s: Student, added: Outcome, graded: Outcome)
    requires code != [] && MgmtStudent.IsCode(code)
    ensures added == Pass && c.roster == [s]
    ensures s.enrolledCourses == [] && s.grades == []
    ensures graded == Fail("Cannot add grade: not enrolled in " + code + ".")
  {
    c := new Course(code, "Intro to Data Science", 3, "Dr. Silva", 2);
    s := new MgmtStudent.Student("Lahiru", "S001", "", "", "STU3001", "", "");
    added := c.AddStudent(s);
    Text.StripUpperUnchanged(code);
    graded := s.AddGrade(code, 3.8);
  }
}
