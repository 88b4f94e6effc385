/** Department of question1_university_management_system: a named department with an
    optional head and two duplicate-free lists, of faculty members and of courses.
    Membership is by object identity, as the classes define no equality of their
    own. Faculty members are modelled by the Person part every faculty object has. */
module MgmtDepartment {
  import opened Outcomes
  import opened Seqs
  import Display
  import Text
  import MgmtPerson
  import MgmtCourse

  type Person = MgmtPerson.Person
  type Course = MgmtCourse.Course

  /** add_faculty and add_course: the list with the item appended, or the error
      raised when the item is already on it, named by `shown`. */
  function AddNew<T(==)>(items: seq<T>, item: T, shown: string, deptName: string): (r: Result<seq<T>>)
    ensures r.Ok? <==> item !in items
    ensures r.Err? ==> r.message == shown + " already exists in " + deptName + "."
    ensures r.Ok? ==> |r.value| == |items| + 1 && r.value[..|items|] == items && r.value[|items|] == item
  {
    if item in items then Err(shown + " already exists in " + deptName + ".")
    else Ok(items + [item])
  }

  /** An addition keeps the list duplicate-free and puts the item on it, after every
      item that was there before. */
  lemma AddNewKeepsDistinct<T>(items: seq<T>, item: T, shown: string, deptName: string)
    requires Distinct(items)
    requires AddNew(items, item, shown, deptName).Ok?
    ensures var r := AddNew(items, item, shown, deptName).value;
      Distinct(r) && item in r && forall t :: t in r <==> t in items || t == item
  {
    AppendFresh(items, item);
  }

  /** A second addition of the same item always fails. */
  lemma AddNewTwice<T>(items: seq<T>, item: T, shown: string, deptName: string)
    requires AddNew(items, item, shown, deptName).Ok?
    ensures AddNew(AddNew(items, item, shown, deptName).value, item, shown, deptName)
      == Err(shown + " already exists in " + deptName + ".")
  {
    assert AddNew(items, item, shown, deptName).value[|items|] == item;
  }

  /** The faculty names of the department, in list order. */
  function Names(faculty: seq<Person>): (names: seq<string>)
    ensures |names| == |faculty|
    ensures forall k :: 0 <= k < |faculty| ==> names[k] == faculty[k].name
  {
    seq(|faculty|, k requires 0 <= k < |faculty| => faculty[k].name)
  }

  /** The course codes of the department, in list order. */
  function Codes(courses: seq<Course>): (codes: seq<string>)
    ensures |codes| == |courses|
    ensures forall k :: 0 <= k < |courses| ==> codes[k] == courses[k].code
  {
    seq(|courses|, k requires 0 <= k < |courses| => courses[k].code)
  }

  class Department {
    const deptName: string
    const head: MgmtPerson.Person?
    /** faculty_list. */
    var faculty: seq<Person>
    /** course_list. */
    var courses: seq<Course>

    ghost predicate Valid()
      reads this
    {
      Distinct(faculty) && Distinct(courses) && (head != null ==> head in faculty)
    }

    /** __init__: a head, when given, is the first faculty member. */
    constructor(deptName: string, head: MgmtPerson.Person?)
      ensures Valid()
      ensures this.deptName == deptName && this.head == head
      ensures faculty == (if head == null then [] else [head]) && courses == []
    {
      this.deptName := deptName;
      this.head := head;
      courses := [];
      if head != null {
        faculty := [head];
      } else {
        faculty := [];
      }
    }

    /** add_faculty: appends a member not yet on the list, or fails with the list
        unchanged. */
    method AddFaculty(f: Person) returns (o: Outcome)
      requires Valid()
      modifies this`faculty
      ensures Valid()
      ensures AddNew(old(faculty), f, f.name, deptName).Ok? ==>
        o == Pass && faculty == AddNew(old(faculty), f, f.name, deptName).value
      ensures AddNew(old(faculty), f, f.name, deptName).Err? ==>
        o == Fail(AddNew(old(faculty), f, f.name, deptName).message) && faculty == old(faculty)
    {
      if f in faculty {
        return Fail(f.name + " already exists in " + deptName + ".");
      }
      AddNewKeepsDistinct(faculty, f, f.name, deptName);
      faculty := faculty + [f];
      o := Pass;
    }

    /** add_course: appends a course not yet on the list, or fails with the list
        unchanged. */
    method AddCourse(c: Course) returns (o: Outcome)
      requires Valid()
      modifies this`courses
      ensures Valid()
      ensures AddNew(old(courses), c, c.code, deptName).Ok? ==>
        o == Pass && courses == AddNew(old(courses), c, c.code, deptName).value
      ensures AddNew(old(courses), c, c.code, deptName).Err? ==>
        o == Fail(AddNew(old(courses), c, c.code, deptName).message) && courses == old(courses)
    {
      if c in courses {
        return Fail(c.code + " already exists in " + deptName + ".");
      }
      AddNewKeepsDistinct(courses, c, c.code, deptName);
      courses := courses + [c];
      o := Pass;
    }

    /** The four labelled lines of get_department_info; an empty list shows as
        "None", as does a missing head. */
    function InfoFields(): (fields: seq<string>)
      reads this
      ensures |fields| == 4 && fields[0] == "Department: " + deptName
      ensures head == null ==> fields[1] == "Department Head: None"
      ensures head != null ==> fields[1] == "Department Head: " + head.name
      ensures faculty == [] ==> fields[2] == "Faculty List: None"
      ensures courses == [] ==> fields[3] == "Course List: None"
      ensures (exists k :: 0 <= k < |faculty| && faculty[k].name != []) ==>
        fields[2] == "Faculty List: " + Text.Join(", ", Names(faculty))
      ensures (exists k :: 0 <= k < |courses| && courses[k].code != []) ==>
        fields[3] == "Course List: " + Text.Join(", ", Codes(courses))
    {
      [ "Department: " + deptName,
        "Department Head: " + (if head == null then "None" else head.name),
        "Faculty List: " + Display.JoinOrNone(Names(faculty)),
        "Course List: " + Display.JoinOrNone(Codes(courses)) ]
    }

    /** get_department_info: the name, the head's name or "None", and the faculty
        names and course codes joined by commas or "None"; with no line break in any
        of them, the lines read back as those four fields. */
    function Info(): (s: string)
      reads this
      ensures (forall k :: 0 <= k < |InfoFields()| ==> '\n' !in InfoFields()[k]) ==>
        Text.Split(s, '\n') == InfoFields()
    {
      var fields := InfoFields();
      if forall k :: 0 <= k < |fields| ==> '\n' !in fields[k] then
        Display.LinesSplit(fields);
        Display.Lines(fields)
      else Display.Lines(fields)
    }
  }

  /** A department built with a head already lists it, so adding the head as a
      faculty member again is refused. */
  method HeadAddedTwice(deptName: string, head: Person) returns (d: Department, o: Outcome)
    ensures d.faculty == [head] && d.head == head
    ensures o == Fail(head.name + " already exists in " + deptName + ".")
  {
    d := new Department(deptName, head);
    o := d.AddFaculty(head);
  }
}
