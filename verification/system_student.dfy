/** Student of question1_university_system: a bounded list of normalised course codes
    and a grade book, with the GPA and academic status derived from the grades. This
    variant rejects a course code that is blank after stripping. */
module SystemStudent {
  import opened Outcomes
  import opened Seqs
  import Text
  import opened Academic

  const MaxCoursesPerSemester: nat := 6

  const EmptyCodeMessage: string := "Course code cannot be empty."
  const TooManyMessage: string := "Cannot enroll in more than 6 courses per semester."

  /** A course code as enroll_course stores it: stripped, upper-cased and not empty. */
  predicate IsCode(c: string) {
    c != [] && Text.Normalised(c)
  }

  /** What enroll_course keeps true of enrolled_courses. */
  predicate CourseListOk(courses: seq<string>) {
    && |courses| <= MaxCoursesPerSemester
    && Distinct(courses)
    && forall c :: c in courses ==> IsCode(c)
  }

  /** enroll_course: the course list after enrolling, or the error it raises. The
      checks run in the source's order: blank code, duplicate, full semester. */
  function Enroll(courses: seq<string>, courseCode: string): (r: Result<seq<string>>)
    ensures r.Ok? <==>
      Text.StripUpper(courseCode) != [] && Text.StripUpper(courseCode) !in courses
      && |courses| < MaxCoursesPerSemester
    ensures r.Ok? ==>
      |r.value| == |courses| + 1 && r.value[..|courses|] == courses
      && r.value[|courses|] == Text.StripUpper(courseCode)
  {
    var code := Text.StripUpper(courseCode);
    if code == [] then Err(EmptyCodeMessage)
    else if code in courses then Err("Already enrolled in " + code + ".")
    else if |courses| >= MaxCoursesPerSemester then Err(TooManyMessage)
    else Ok(courses + [code])
  }

  /** A successful enrolment keeps the list duplicate-free, normalised and within six
      codes. */
  lemma EnrollKeepsCourseList(courses: seq<string>, courseCode: string)
    requires CourseListOk(courses)
    requires Enroll(courses, courseCode).Ok?
    ensures CourseListOk(Enroll(courses, courseCode).value)
  {
    var code := Text.StripUpper(courseCode);
    Text.StripUpperIdempotent(courseCode);
    assert IsCode(code);
    assert Enroll(courses, courseCode).value == courses + [code];
    AppendFresh(courses, code);
  }

  /** The code is rejected as empty exactly when it is all whitespace. */
  lemma EnrollBlank(courses: seq<string>, courseCode: string)
    ensures Enroll(courses, courseCode) == Err(EmptyCodeMessage) <==>
      forall k :: 0 <= k < |courseCode| ==> Text.IsSpace(courseCode[k])
  {
    Text.StripUpperEmpty(courseCode);
    var code := Text.StripUpper(courseCode);
    assert ("Already enrolled in " + code + ".")[0] == 'A';
    assert |TooManyMessage| != |EmptyCodeMessage|;
  }

  /** Enrolling again in a code already on the list, in any spacing or letter case,
      raises "Already enrolled in CODE." */
  lemma EnrollTwice(courses: seq<string>, courseCode: string, again: string)
    requires Enroll(courses, courseCode).Ok?
    requires Text.StripUpper(again) == Text.StripUpper(courseCode)
    ensures Enroll(Enroll(courses, courseCode).value, again)
      == Err("Already enrolled in " + Text.StripUpper(courseCode) + ".")
  {
  }

  /** A list holding six codes accepts no further code. */
  lemma EnrollFull(courses: seq<string>, courseCode: string)
    requires |courses| == MaxCoursesPerSemester
    ensures Enroll(courses, courseCode).Err?
  {
  }

  /** Only the normalised code matters: enrolling " ds101 " is enrolling "DS101". */
  lemma EnrollNormalises(courses: seq<string>, courseCode: string)
    ensures Enroll(courses, Text.StripUpper(courseCode)) == Enroll(courses, courseCode)
  {
    Text.StripUpperIdempotent(courseCode);
  }

  class Student {
    const name: string
    const studentId: string
    const major: string
    const enrollmentDate: string
    var enrolledCourses: seq<string>
    /** The _grades dict, as its entries in insertion order. */
    var grades: seq<Grade>

    ghost predicate Valid()
      reads this
    {
      CourseListOk(enrolledCourses) && UniqueCodes(grades) && AllInRange(grades)
    }

    constructor(name: string, studentId: string, major: string, enrollmentDate: string)
      ensures Valid()
      ensures this.name == name && this.studentId == studentId
      ensures this.major == major && this.enrollmentDate == enrollmentDate
      ensures enrolledCourses == [] && grades == []
    {
      this.name := name;
      this.studentId := studentId;
      this.major := major;
      this.enrollmentDate := enrollmentDate;
      enrolledCourses := [];
      grades := [];
    }

    /** enroll_course: appends the normalised code, or fails with the list unchanged. */
    method EnrollCourse(courseCode: string) returns (o: Outcome)
      requires Valid()
      modifies this`enrolledCourses
      ensures Valid()
      ensures Enroll(old(enrolledCourses), courseCode).Ok? ==>
        o == Pass && enrolledCourses == Enroll(old(enrolledCourses), courseCode).value
      ensures Enroll(old(enrolledCourses), courseCode).Err? ==>
        o == Fail(Enroll(old(enrolledCourses), courseCode).message)
        && enrolledCourses == old(enrolledCourses)
    {
      var code := Text.StripUpper(courseCode);
      if code == [] {
        return Fail(EmptyCodeMessage);
      }
      if code in enrolledCourses {
        return Fail("Already enrolled in " + code + ".");
      }
      if |enrolledCourses| >= MaxCoursesPerSemester {
        return Fail(TooManyMessage);
      }
      EnrollKeepsCourseList(enrolledCourses, courseCode);
      enrolledCourses := enrolledCourses + [code];
      o := Pass;
    }

    /** add_grade: records or replaces the grade, or fails with the grades unchanged. */
    method AddGrade(courseCode: string, grade: real) returns (o: Outcome)
      requires Valid()
      modifies this`grades
      ensures Valid()
      ensures Record(enrolledCourses, old(grades), courseCode, grade).Ok? ==>
        o == Pass && grades == Record(enrolledCourses, old(grades), courseCode, grade).value
      ensures Record(enrolledCourses, old(grades), courseCode, grade).Err? ==>
        o == Fail(Record(enrolledCourses, old(grades), courseCode, grade).message)
        && grades == old(grades)
    {
      var code := Text.StripUpper(courseCode);
      if code !in enrolledCourses {
        return Fail("Cannot add grade: not enrolled in " + code + ".");
      }
      if !InRange(grade) {
        return Fail(GradeRangeMessage);
      }
      RecordKeepsBook(enrolledCourses, grades, courseCode, grade);
      grades := Put(grades, code, grade);
      o := Pass;
    }

    /** calculate_gpa and the gpa property. */
    function Gpa(): (gpa: real)
      reads this
      requires Valid()
      ensures MinGrade <= gpa <= MaxGrade
      ensures grades == [] ==> gpa == 0.0
      ensures gpa * |grades| as real == Sum(Values(grades))
    {
      GpaTimesCount(grades);
      Academic.Gpa(grades)
    }

    /** The grades property: a dict with exactly the graded codes as keys. */
    function GradeMap(): (m: map<string, real>)
      reads this
      requires Valid()
      ensures |m| == |grades|
      ensures forall i :: 0 <= i < |grades| ==> grades[i].code in m && m[grades[i].code] == grades[i].value
      ensures forall c :: c in m ==> exists i :: 0 <= i < |grades| && grades[i].code == c
    {
      AsMapEntries(grades);
      AsMap(grades)
    }

    /** get_academic_status. */
    function AcademicStatus(): (s: string)
      reads this
      requires Valid()
      ensures s == "Dean's List" <==> Gpa() >= DeansListGpa
      ensures s == "Good Standing" <==> GoodStandingGpa <= Gpa() < DeansListGpa
      ensures s == "Probation" <==> Gpa() < GoodStandingGpa
    {
      StatusOf(Gpa()).Label()
    }
  }

  /** Seven enrolments of distinct codes in a row on a new student: the first six
      succeed and the seventh raises. */
  method SeventhCourseFails(codes: seq<string>) returns (s: Student, last: Outcome)
    requires |codes| == MaxCoursesPerSemester + 1 && Distinct(codes)
    requires forall k :: 0 <= k < |codes| ==> IsCode(codes[k])
    ensures s.enrolledCourses == codes[..MaxCoursesPerSemester]
    ensures last == Fail(TooManyMessage)
  {
    s := new Student("Lahiru Weerasingha", "STU3001", "MSc Data Science", "2026-02-23");
    var i := 0;
    while i < MaxCoursesPerSemester
      invariant 0 <= i <= MaxCoursesPerSemester
      invariant s.Valid() && s.enrolledCourses == codes[..i]
    {
      assert codes[i] !in codes[..i];
      Text.StripUpperUnchanged(codes[i]);
      var o := s.EnrollCourse(codes[i]);
      assert codes[..i + 1] == codes[..i] + [codes[i]];
      i := i + 1;
    }
    assert codes[6] !in codes[..6];
    Text.StripUpperUnchanged(codes[6]);
    last := s.EnrollCourse(codes[6]);
  }

  /** A blank code raises before anything else is looked at. */
  method BlankCodeFails() returns (s: Student, o: Outcome)
    ensures o == Fail(EmptyCodeMessage) && s.enrolledCourses == []
  {
    s := new Student("Amaya Silva", "STU3003", "BSc Computer Science", "2026-02-20");
    EnrollBlank([], " \t ");
    o := s.EnrollCourse(" \t ");
  }
}
