/** The grade book shared by both Student variants: Student._grades is a dict from
    course code to grade, kept here as its entries in insertion order (a Python dict
    keeps that order, and assigning to an existing key keeps its place). The GPA and
    the academic status are computed from it the same way in both variants. */
module Academic {
  import opened Seqs
  import opened Outcomes
  import Text

  const MinGrade: real := 0.0
  const MaxGrade: real := 4.0
  const DeansListGpa: real := 3.5
  const GoodStandingGpa: real := 2.0

  datatype Grade = Grade(code: string, value: real)

  predicate InRange(g: real) {
    MinGrade <= g <= MaxGrade
  }

  /** No course code is graded twice (the keys of a dict). */
  predicate UniqueCodes(gs: seq<Grade>) {
    forall i, j :: 0 <= i < j < |gs| ==> gs[i].code != gs[j].code
  }

  predicate AllInRange(gs: seq<Grade>) {
    forall i :: 0 <= i < |gs| ==> InRange(gs[i].value)
  }

  /** The dict itself, as the `grades` property returns a copy of it. */
  function AsMap(gs: seq<Grade>): map<string, real> {
    if gs == [] then map[] else AsMap(gs[1..])[gs[0].code := gs[0].value]
  }

  /** The grades in dict order. */
  function Values(gs: seq<Grade>): (vs: seq<real>)
    ensures |vs| == |gs|
    ensures forall i :: 0 <= i < |gs| ==> vs[i] == gs[i].value
  {
    seq(|gs|, i requires 0 <= i < |gs| => gs[i].value)
  }

  /** grades[code] = value: overwrites the entry in place when the code is present and
      appends a new entry at the end otherwise. */
  function Put(gs: seq<Grade>, code: string, value: real): (r: seq<Grade>)
    ensures code !in AsMap(gs) ==> r == gs + [Grade(code, value)]
    ensures forall i :: 0 <= i < |r| ==> r[i] == Grade(code, value) || r[i] in gs
  {
    if gs == [] then [Grade(code, value)]
    else if gs[0].code == code then [Grade(code, value)] + gs[1..]
    else
      assert gs == [gs[0]] + gs[1..];
      [gs[0]] + Put(gs[1..], code, value)
  }

  /** After the assignment the dict maps code to value and keeps every other entry. */
  lemma {:induction false} PutAsMap(gs: seq<Grade>, code: string, value: real)
    ensures AsMap(Put(gs, code, value)) == AsMap(gs)[code := value]
    ensures code in AsMap(gs) ==> |Put(gs, code, value)| == |gs|
  {
    if gs != [] && gs[0].code != code {
      PutAsMap(gs[1..], code, value);
      var m := AsMap(gs[1..]);
      assert AsMap(Put(gs, code, value)) == m[code := value][gs[0].code := gs[0].value];
      assert m[code := value][gs[0].code := gs[0].value] == m[gs[0].code := gs[0].value][code := value];
      if code in AsMap(gs) {
        assert code in m;
      }
    }
  }

  /** A code that is neither the assigned one nor on the list stays off it. */
  lemma PutAvoids(gs: seq<Grade>, code: string, value: real, c: string)
    requires c != code && forall i :: 0 <= i < |gs| ==> gs[i].code != c
    ensures forall i :: 0 <= i < |Put(gs, code, value)| ==> Put(gs, code, value)[i].code != c
  {
    var r := Put(gs, code, value);
    forall i | 0 <= i < |r| ensures r[i].code != c {
      if r[i] != Grade(code, value) {
        var k :| 0 <= k < |gs| && gs[k] == r[i];
      }
    }
  }

  /** The tail of a list with unique codes has unique codes, none of them the head's. */
  lemma UniqueTail(gs: seq<Grade>)
    requires UniqueCodes(gs) && gs != []
    ensures UniqueCodes(gs[1..])
    ensures forall i :: 0 <= i < |gs| - 1 ==> gs[1..][i].code != gs[0].code
  {
    var tail := gs[1..];
    forall a, b | 0 <= a < b < |tail| ensures tail[a].code != tail[b].code {
      assert tail[a] == gs[a + 1] && tail[b] == gs[b + 1];
    }
    forall i | 0 <= i < |tail| ensures tail[i].code != gs[0].code {
      assert tail[i] == gs[i + 1];
    }
  }

  /** A grade whose code the tail does not use may head a list of unique codes. */
  lemma UniqueCons(h: Grade, rest: seq<Grade>)
    requires UniqueCodes(rest) && forall i :: 0 <= i < |rest| ==> rest[i].code != h.code
    ensures UniqueCodes([h] + rest)
  {
    var r := [h] + rest;
    forall a, b | 0 <= a < b < |r| ensures r[a].code != r[b].code {
      assert r[b] == rest[b - 1];
      if a > 0 { assert r[a] == rest[a - 1]; }
    }
  }

  /** The assignment never creates a second entry for a code. */
  lemma {:induction false} PutUniqueCodes(gs: seq<Grade>, code: string, value: real)
    requires UniqueCodes(gs)
    ensures UniqueCodes(Put(gs, code, value))
  {
    if gs != [] {
      var tail := gs[1..];
      UniqueTail(gs);
      if gs[0].code != code {
        PutUniqueCodes(tail, code, value);
        PutAvoids(tail, code, value, gs[0].code);
        UniqueCons(gs[0], Put(tail, code, value));
      } else {
        UniqueCons(Grade(code, value), tail);
      }
    }
  }

  /** Every graded course is one of `courses`. */
  predicate GradedOnly(gs: seq<Grade>, courses: seq<string>) {
    forall i :: 0 <= i < |gs| ==> gs[i].code in courses
  }

  /** Every key of the dict is the code of some entry. */
  lemma {:induction false} AsMapKeys(gs: seq<Grade>)
    ensures forall c :: c in AsMap(gs) ==> exists i :: 0 <= i < |gs| && gs[i].code == c
  {
    if gs != [] {
      var tail := gs[1..];
      AsMapKeys(tail);
      forall c | c in AsMap(gs) ensures exists i :: 0 <= i < |gs| && gs[i].code == c {
        if c != gs[0].code {
          assert c in AsMap(tail);
          var i :| 0 <= i < |tail| && tail[i].code == c;
          assert gs[i + 1] == tail[i];
        }
      }
    }
  }

  /** With no code graded twice, each entry's code maps to that entry's grade, and
      the dict has one key per entry. */
  lemma {:induction false} AsMapLookup(gs: seq<Grade>)
    requires UniqueCodes(gs)
    ensures |AsMap(gs)| == |gs|
    ensures forall i :: 0 <= i < |gs| ==> gs[i].code in AsMap(gs) && AsMap(gs)[gs[i].code] == gs[i].value
  {
    if gs != [] {
      var tail := gs[1..];
      UniqueTail(gs);
      AsMapLookup(tail);
      AsMapKeys(tail);
      assert gs[0].code !in AsMap(tail);
      forall i | 0 <= i < |gs| ensures gs[i].code in AsMap(gs) && AsMap(gs)[gs[i].code] == gs[i].value {
        if i > 0 {
          assert gs[i] == tail[i - 1];
        }
      }
    }
  }

  /** With no code graded twice the dict has one key per entry, each mapped to the
      grade of its entry, and no other key. */
  lemma AsMapEntries(gs: seq<Grade>)
    requires UniqueCodes(gs)
    ensures |AsMap(gs)| == |gs|
    ensures forall i :: 0 <= i < |gs| ==> gs[i].code in AsMap(gs) && AsMap(gs)[gs[i].code] == gs[i].value
    ensures forall c :: c in AsMap(gs) ==> exists i :: 0 <= i < |gs| && gs[i].code == c
  {
    AsMapLookup(gs);
    AsMapKeys(gs);
  }

  const GradeRangeMessage: string := "Grade must be between 0.0 and 4.0."

  /** add_grade: the grade book after recording `value` for the normalised course code,
      or the error it raises. The code must be enrolled (checked first) and the grade
      within 0.0-4.0; a code graded before gets its grade replaced. */
  function Record(courses: seq<string>, gs: seq<Grade>, courseCode: string, value: real): (r: Result<seq<Grade>>)
    ensures r.Ok? <==> Text.StripUpper(courseCode) in courses && InRange(value)
    ensures Text.StripUpper(courseCode) !in courses ==>
      r == Err("Cannot add grade: not enrolled in " + Text.StripUpper(courseCode) + ".")
    ensures Text.StripUpper(courseCode) in courses && !InRange(value) ==> r == Err(GradeRangeMessage)
    ensures r.Ok? ==> AsMap(r.value) == AsMap(gs)[Text.StripUpper(courseCode) := value]
  {
    var code := Text.StripUpper(courseCode);
    if code !in courses then Err("Cannot add grade: not enrolled in " + code + ".")
    else if !InRange(value) then Err(GradeRangeMessage)
    else
      PutAsMap(gs, code, value);
      Ok(Put(gs, code, value))
  }

  /** Recording a grade keeps the book well formed: one entry per code, every grade in
      range, and (when every graded code was enrolled) only enrolled codes graded. It
      adds at most one entry, and none when the code was graded before. */
  lemma RecordKeepsBook(courses: seq<string>, gs: seq<Grade>, courseCode: string, value: real)
    requires UniqueCodes(gs) && AllInRange(gs)
    requires Record(courses, gs, courseCode, value).Ok?
    ensures var r := Record(courses, gs, courseCode, value).value;
      UniqueCodes(r) && AllInRange(r)
      && (GradedOnly(gs, courses) ==> GradedOnly(r, courses))
      && |r| == |gs| + (if Text.StripUpper(courseCode) in AsMap(gs) then 0 else 1)
  {
    var code := Text.StripUpper(courseCode);
    PutUniqueCodes(gs, code, value);
    PutAsMap(gs, code, value);
  }

  /** Grade point average: 0.0 with no grades, otherwise the mean of the grades. */
  function Gpa(gs: seq<Grade>): (gpa: real)
    requires AllInRange(gs)
    ensures MinGrade <= gpa <= MaxGrade
    ensures gs == [] ==> gpa == 0.0
  {
    if gs == [] then 0.0
    else
      SumBounds(Values(gs), MinGrade, MaxGrade);
      MeanBounds(Sum(Values(gs)), |gs| as real, MinGrade, MaxGrade);
      Sum(Values(gs)) / |gs| as real
  }

  /** A mean lies between the smallest and the largest grade. */
  lemma GpaBetween(gs: seq<Grade>, lo: real, hi: real)
    requires AllInRange(gs) && gs != []
    requires forall i :: 0 <= i < |gs| ==> lo <= gs[i].value <= hi
    ensures lo <= Gpa(gs) <= hi
  {
    SumBounds(Values(gs), lo, hi);
    MeanBounds(Sum(Values(gs)), |gs| as real, lo, hi);
  }

  /** The GPA is the mean: times the number of grades it gives back their total. */
  lemma GpaTimesCount(gs: seq<Grade>)
    requires AllInRange(gs)
    ensures Gpa(gs) * |gs| as real == Sum(Values(gs))
  {
    if gs == [] {
      assert Values(gs) == [];
    } else {
      var n := |gs| as real;
      assert Sum(Values(gs)) / n * n == Sum(Values(gs));
    }
  }

  /** grades[code] = value for a code not graded yet appends the grade. */
  lemma PutNewAppends(gs: seq<Grade>, code: string, value: real)
    requires AllInRange(gs) && InRange(value) && code !in AsMap(gs)
    ensures Put(gs, code, value) == gs + [Grade(code, value)]
    ensures AllInRange(Put(gs, code, value))
  {
    var r := Put(gs, code, value);
    assert r == gs + [Grade(code, value)];
    assert AllInRange(r) by {
      forall i | 0 <= i < |r| ensures InRange(r[i].value) {
        if i < |gs| { assert r[i] == gs[i]; }
      }
    }
  }

  /** `after` is the mean of n values whose mean was `before`, plus one more value v. */
  predicate WeightedMeanOf(after: real, before: real, n: nat, v: real) {
    after * (n as real + 1.0) == before * n as real + v
  }

  /** Appending one grade moves the GPA to the weighted mean of the old GPA and the
      new grade. */
  lemma GpaAppend(gs: seq<Grade>, g: Grade)
    requires AllInRange(gs + [g])
    ensures AllInRange(gs)
    ensures WeightedMeanOf(Gpa(gs + [g]), Gpa(gs), |gs|, g.value)
  {
    var r := gs + [g];
    assert forall i :: 0 <= i < |gs| ==> gs[i] == r[i];
    assert Values(r) == Values(gs) + [g.value];
    SumConcat(Values(gs), [g.value]);
    assert Sum([g.value]) == g.value;
    GpaTimesCount(gs);
    GpaTimesCount(r);
    WeightedMean(Gpa(gs), Gpa(r), |gs|, |r|, Sum(Values(gs)), Sum(Values(r)), g.value);
  }

  /** grades[code] = value for a code not graded yet is such an append. */
  lemma GpaAfterNewGrade(gs: seq<Grade>, code: string, value: real)
    requires AllInRange(gs) && InRange(value) && code !in AsMap(gs)
    ensures AllInRange(Put(gs, code, value))
    ensures WeightedMeanOf(Gpa(Put(gs, code, value)), Gpa(gs), |gs|, value)
  {
    PutNewAppends(gs, code, value);
    GpaAppend(gs, Grade(code, value));
  }

  /** The arithmetic of a mean after one more value, over plain numbers. */
  lemma WeightedMean(before: real, after: real, n: nat, m: nat, total: real, total': real, v: real)
    requires before * n as real == total && after * m as real == total' && total' == total + v && m == n + 1
    ensures WeightedMeanOf(after, before, n, v)
  {
  }

  datatype Status = DeansList | GoodStanding | Probation {
    /** The text get_academic_status returns. */
    function Label(): string {
      match this
      case DeansList => "Dean's List"
      case GoodStanding => "Good Standing"
      case Probation => "Probation"
    }

    function Rank(): nat {
      match this
      case DeansList => 2
      case GoodStanding => 1
      case Probation => 0
    }
  }

  /** get_academic_status: Dean's List from 3.5, Good Standing from 2.0, else Probation. */
  function StatusOf(gpa: real): (s: Status)
    ensures s == DeansList <==> gpa >= DeansListGpa
    ensures s == GoodStanding <==> GoodStandingGpa <= gpa < DeansListGpa
    ensures s == Probation <==> gpa < GoodStandingGpa
  {
    if gpa >= DeansListGpa then DeansList
    else if gpa >= GoodStandingGpa then GoodStanding
    else Probation
  }

  /** A higher GPA never gives a lower status. */
  lemma StatusMonotone(a: real, b: real)
    requires a <= b
    ensures StatusOf(a).Rank() <= StatusOf(b).Rank()
  {
  }
}
