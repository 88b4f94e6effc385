/** Student of question1_university_management_system. It differs from the other
    variant in that enroll_course does not reject a blank code: the empty code is
    stored like any other. No course removes codes from this student's list, so
    every graded code stays enrolled. */
module MgmtStudent {
  import opened Outcomes
  import opened Seqs
  import Text
  import opened Academic
  import MgmtPerson

  const MaxCoursesPerSemester: nat := 6

  const TooManyMessage: string := "Cannot enroll in more than 6 courses per semester."

  /** A course code as enroll_course stores it: stripped and upper-cased, possibly
      empty. */
  predicate IsCode(c: string) {
    Text.Normalised(c)
  }

  /** What enroll_course keeps true of enrolled_courses: at most six distinct
      normalised codes, the empty code among them possibly. */
  predicate CourseListOk(courses: seq<string>) {
    && |courses| <= MaxCoursesPerSemester
    && Distinct(courses)
    && forall c :: c in courses ==> IsCode(c)
  }

  /** enroll_course: the course list after enrolling, or the error it raises. */
  function Enroll(courses: seq<string>, courseCode: string): (r: Result<seq<string>>)
    ensures r.Ok? <==> Text.StripUpper(courseCode) !in courses && |courses| < MaxCoursesPerSemester
    ensures r.Ok? ==>
      |r.value| == |courses| + 1 && r.value[..|courses|] == courses
      && r.value[|courses|] == Text.StripUpper(courseCode)
  {
    var code := Text.StripUpper(courseCode);
    if code in courses then Err("Already enrolled in " + code + ".")
    else if |courses| >= MaxCoursesPerSemester then Err(TooManyMessage)
    else Ok(courses + [code])
  }

  /** A successful enrolment keeps the list duplicate-free, normalised and within six
      codes. */
  lemma EnrollKeepsCourseList(courses: seq<string>, courseCode: string)
    requires CourseListOk(courses)
    requires Enroll(courses, courseCode).Ok?
    ensures CourseListOk(Enroll(courses, courseCode).value)
  {
    var code := Text.StripUpper(courseCode);
    assert Enroll(courses, courseCode).value == courses + [code];
    AppendFresh(courses, code);
  }

  /** A blank code is accepted and stored as the empty code when there is room and
      no empty code is stored yet. */
  lemma EnrollBlank(courses: seq<string>, courseCode: string)
    requires forall k :: 0 <= k < |courseCode| ==> Text.IsSpace(courseCode[k])
    requires "" !in courses && |courses| < MaxCoursesPerSemester
    ensures Enroll(courses, courseCode) == Ok(courses + [""])
  {
    Text.StripUpperEmpty(courseCode);
  }

  /** Enrolling again in a code already on the list raises "Already enrolled in CODE." */
  lemma EnrollTwice(courses: seq<string>, courseCode: string, again: string)
    requires Enroll(courses, courseCode).Ok?
    requires Text.StripUpper(again) == Text.StripUpper(courseCode)
    ensures Enroll(Enroll(courses, courseCode).value, again)
      == Err("Already enrolled in " + Text.StripUpper(courseCode) + ".")
  {
  }

  /** A list holding six codes accepts no further code. */
  lemma EnrollFull(courses: seq<string>, courseCode: string)
    requires |courses| == MaxCoursesPerSemester
    ensures Enroll(courses, courseCode).Err?
  {
  }

  class Student {
    /** The Person part: name, id and the contact details update_contact changes. */
    const person: MgmtPerson.Person
    const studentId: string
    const major: string
    const enrollmentDate: string
    var enrolledCourses: seq<string>
    /** The _grades dict, as its entries in insertion order. */
    var grades: seq<Grade>

    ghost predicate Valid()
      reads this
    {
      && CourseListOk(enrolledCourses) && UniqueCodes(grades) && AllInRange(grades)
      && GradedOnly(grades, enrolledCourses)
    }

    constructor(name: string, personId: string, email: string, phone: string,
                studentId: string, major: string, enrollmentDate: string)
      ensures Valid() && fresh(person)
      ensures person.name == name && person.personId == personId && person.role == MgmtPerson.StudentRole
      ensures person.email == email && person.phone == phone
      ensures this.studentId == studentId && this.major == major && this.enrollmentDate == enrollmentDate
      ensures enrolledCourses == [] && grades == []
    {
      person := new MgmtPerson.Person(name, personId, email, phone, MgmtPerson.StudentRole);
      this.studentId := studentId;
      this.major := major;
      this.enrollmentDate := enrollmentDate;
      enrolledCourses := [];
      grades := [];
    }

    function Name(): string {
      person.name
    }

    /** enroll_course: appends the normalised code, or fails with the list unchanged. */
    method EnrollCourse(courseCode: string) returns (o: Outcome)
      requires Valid()
      modifies this`enrolledCourses
      ensures Valid()
      ensures Enroll(old(enrolledCourses), courseCode).Ok? ==>
        o == Pass && enrolledCourses == Enroll(old(enrolledCourses), courseCode).value
      ensures Enroll(old(enrolledCourses), courseCode).Err? ==>
        o == Fail(Enroll(old(enrolledCourses), courseCode).message)
        && enrolledCourses == old(enrolledCourses)
    {
      var code := Text.StripUpper(courseCode);
      if code in enrolledCourses {
        return Fail("Already enrolled in " + code + ".");
      }
      if |enrolledCourses| >= MaxCoursesPerSemester {
        return Fail(TooManyMessage);
      }
      EnrollKeepsCourseList(enrolledCourses, courseCode);
      enrolledCourses := enrolledCourses + [code];
      o := Pass;
    }

    /** add_grade: records or replaces the grade of an enrolled course, or fails with
        the grades unchanged. */
    method AddGrade(courseCode: string, grade: real) returns (o: Outcome)
      requires Valid()
      modifies this`grades
      ensures Valid()
      ensures Record(enrolledCourses, old(grades), courseCode, grade).Ok? ==>
        o == Pass && grades == Record(enrolledCourses, old(grades), courseCode, grade).value
      ensures Record(enrolledCourses, old(grades), courseCode, grade).Err? ==>
        o == Fail(Record(enrolledCourses, old(grades), courseCode, grade).message)
        && grades == old(grades)
    {
      var code := Text.StripUpper(courseCode);
      if code !in enrolledCourses {
        return Fail("Cannot add grade: not enrolled in " + code + ".");
      }
      if !InRange(grade) {
        return Fail(GradeRangeMessage);
      }
      RecordKeepsBook(enrolledCourses, grades, courseCode, grade);
      grades := Put(grades, code, grade);
      o := Pass;
    }

    /** calculate_gpa and the gpa property. */
    function Gpa(): (gpa: real)
      reads this
      requires Valid()
      ensures MinGrade <= gpa <= MaxGrade
      ensures grades == [] ==> gpa == 0.0
      ensures gpa * |grades| as real == Sum(Values(grades))
    {
      GpaTimesCount(grades);
      Academic.Gpa(grades)
    }

    /** get_academic_status. */
    function AcademicStatus(): (s: string)
      reads this
      requires Valid()
      ensures s == "Dean's List" <==> Gpa() >= DeansListGpa
      ensures s == "Good Standing" <==> GoodStandingGpa <= Gpa() < DeansListGpa
      ensures s == "Probation" <==> Gpa() < GoodStandingGpa
    {
      StatusOf(Gpa()).Label()
    }
  }
}
