/** Person of question1_university_management_system: the base of Student, Faculty
    and Staff. Name and id are fixed; the contact details can be updated one at a
    time. Which subclass an object belongs to is kept as a role tag, which selects
    the get_responsibilities override. */
module MgmtPerson {
  import opened Outcomes
  import Text
  import Display

  /** The class of a person object. */
  datatype Role = General | StudentRole | FacultyRole | StaffRole

  const GeneralDuties: string := "General university responsibilities."
  const StudentDuties: string :=
    "Attend lectures, complete coursework, sit exams, and follow academic integrity rules."
  const FacultyDuties: string :=
    "Teach courses, supervise students, conduct research, and contribute to academic service."
  const StaffDuties: string :=
    "Provide administrative support and ensure smooth university operations."

  /** get_responsibilities as dispatched on the object's class: the base class gives
      the general text, each subclass its own. */
  function Responsibilities(role: Role): (s: string)
    ensures s == GeneralDuties <==> role == General
  {
    match role
    case General => GeneralDuties
    case StudentRole => StudentDuties
    case FacultyRole => FacultyDuties
    case StaffRole => StaffDuties
  }

  /** No two classes share a responsibilities text. */
  lemma ResponsibilitiesDistinct(a: Role, b: Role)
    requires a != b
    ensures Responsibilities(a) != Responsibilities(b)
  {
    assert |StudentDuties| != |FacultyDuties|;
    assert |StudentDuties| != |StaffDuties|;
    assert |FacultyDuties| != |StaffDuties|;
  }

  /** The four labelled lines of get_info. */
  function InfoFields(name: string, personId: string, email: string, phone: string): seq<string> {
    ["Name: " + name, "Person ID: " + personId, "Email: " + email, "Phone: " + phone]
  }

  /** A value with no line break stays on its labelled line. */
  predicate OneLine(s: string) {
    '\n' !in s
  }

  class Person {
    const name: string
    const personId: string
    const role: Role
    var email: string
    var phone: string

    constructor(name: string, personId: string, email: string, phone: string, role: Role)
      ensures this.name == name && this.personId == personId
      ensures this.email == email && this.phone == phone && this.role == role
    {
      this.name := name;
      this.personId := personId;
      this.email := email;
      this.phone := phone;
      this.role := role;
    }

    /** get_info: name, id, email and phone, one per line, in that order. */
    function Info(): (s: string)
      reads this
      ensures OneLine(name) && OneLine(personId) && OneLine(email) && OneLine(phone) ==>
        Text.Split(s, '\n') == InfoFields(name, personId, email, phone)
    {
      var fields := InfoFields(name, personId, email, phone);
      if OneLine(name) && OneLine(personId) && OneLine(email) && OneLine(phone) then
        assert forall k :: 0 <= k < |fields| ==> '\n' !in fields[k];
        Display.LinesSplit(fields);
        Display.Lines(fields)
      else Display.Lines(fields)
    }

    /** update_contact: replaces each detail that is given and keeps the other. */
    method UpdateContact(newEmail: Option<string>, newPhone: Option<string>)
      modifies this
      ensures email == (if newEmail.Some? then newEmail.value else old(email))
      ensures phone == (if newPhone.Some? then newPhone.value else old(phone))
    {
      if newEmail.Some? {
        email := newEmail.value;
      }
      if newPhone.Some? {
        phone := newPhone.value;
      }
    }

    function Duties(): (s: string)
      ensures s == GeneralDuties <==> role == General
    {
      Responsibilities(role)
    }
  }

  /** The demo's inheritance step: a student's email is updated and the phone is kept;
      a staff member's phone is updated and the email is kept; an update with
      neither detail changes nothing. */
  method UpdateContactDemo() returns (s: Person, t: Person)
    ensures s.email == "lahiru.weerasingha@stu.edu" && s.phone == "0712345678"
    ensures t.email == "nuwan@uni.edu" && t.phone == "0770000000"
  {
    s := new Person("Lahiru Weerasingha", "S001", "lahiru@stu.edu", "0712345678", StudentRole);
    t := new Person("Ms. Nuwan", "T001", "nuwan@uni.edu", "0721111111", StaffRole);
    s.UpdateContact(Some("lahiru.weerasingha@stu.edu"), None);
    t.UpdateContact(None, Some("0770000000"));
    t.UpdateContact(None, None);
  }
}
