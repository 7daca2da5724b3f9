/** The filtered listing handler: up to five optional filters, applied one after the
    other to the list. */
module Listing {
  import opened Outcome
  import opened Records
  import opened Seqs

  /** The query parameters. `semester` follows Python truthiness: a value of 0 means
      no semester filter. */
  datatype Query = Query(
    category: Option<Category>,
    residence: Option<Residence>,
    semester: Option<int>,
    minGpa: Option<real>,
    maxGpa: Option<real>
  )

  datatype StudentList = StudentList(total: nat, students: seq<Student>)

  /** The bounds the framework checks on the GPA parameters before the handler runs. */
  predicate QueryValid(q: Query)
  {
    && (q.minGpa.Some? ==> 0.0 <= q.minGpa.value <= 10.0)
    && (q.maxGpa.Some? ==> 0.0 <= q.maxGpa.value <= 10.0)
  }

  predicate SemesterFilterOn(semester: Option<int>)
  {
    semester.Some? && semester.value != 0
  }

  predicate NoFilters(q: Query)
  {
    q.category.None? && q.residence.None? && !SemesterFilterOn(q.semester)
    && q.minGpa.None? && q.maxGpa.None?
  }

  /** The reference meaning of a query: a record is listed when it satisfies every
      filter that is switched on. */
  predicate Matches(q: Query, s: Student)
  {
    && (q.category.Some? ==> s.category == q.category.value)
    && (q.residence.Some? ==> s.residence == q.residence.value)
    && (SemesterFilterOn(q.semester) ==> s.semester == q.semester.value)
    && (q.minGpa.Some? ==> s.gpa >= q.minGpa.value)
    && (q.maxGpa.Some? ==> s.gpa <= q.maxGpa.value)
  }

  /** One filtering stage: narrows the list by `p` when `on`, and passes it through otherwise. */
  function Narrow(xs: seq<Student>, on: bool, p: Student -> bool): seq<Student>
  {
    if on then Filter(xs, p) else xs
  }

  /** The stages in the handler's order. */
  function ApplyFilters(db: seq<Student>, q: Query): seq<Student>
  {
    var byCategory := Narrow(db, q.category.Some?, (s: Student) => q.category.Some? && s.category == q.category.value);
    var byResidence := Narrow(byCategory, q.residence.Some?, (s: Student) => q.residence.Some? && s.residence == q.residence.value);
    var bySemester := Narrow(byResidence, SemesterFilterOn(q.semester), (s: Student) => q.semester.Some? && s.semester == q.semester.value);
    var byMin := Narrow(bySemester, q.minGpa.Some?, (s: Student) => q.minGpa.Some? && s.gpa >= q.minGpa.value);
    Narrow(byMin, q.maxGpa.Some?, (s: Student) => q.maxGpa.Some? && s.gpa <= q.maxGpa.value)
  }

  function ListStudents(db: seq<Student>, q: Query): (r: Result<StudentList>)
    ensures r.Err? <==> !QueryValid(q)
    ensures r.Err? ==> r.error == Unprocessable
    ensures r.Ok? ==> r.value.total == |r.value.students|
    ensures r.Ok? ==> IsSubseq(r.value.students, db)
    ensures r.Ok? ==> forall i :: 0 <= i < |r.value.students| ==> Matches(q, r.value.students[i])
    ensures r.Ok? ==> forall x :: multiset(r.value.students)[x] == if Matches(q, x) then multiset(db)[x] else 0
    ensures r.Ok? ==> r.value.students == Filter(db, (s: Student) => Matches(q, s))
    ensures r.Ok? && NoFilters(q) ==> r.value.students == db
  {
    if !QueryValid(q) then Err(Unprocessable)
    else
      var students := ApplyFilters(db, q);
      StagesAreOneFilter(db, q);
      FilterIsSubseq(db, (s: Student) => Matches(q, s));
      FilterMultiset(db, (s: Student) => Matches(q, s));
      Ok(StudentList(|students|, students))
  }

  /** A stage composed with a filter by `m` is one filter by `m` and the stage's test. */
  lemma NarrowFilter(db: seq<Student>, m: Student -> bool, on: bool, p: Student -> bool, m': Student -> bool)
    requires forall x :: m'(x) == (m(x) && (!on || p(x)))
    ensures Narrow(Filter(db, m), on, p) == Filter(db, m')
  {
  }

  /** The five stages together select exactly the records the query matches, in order. */
  lemma StagesAreOneFilter(db: seq<Student>, q: Query)
    ensures ApplyFilters(db, q) == Filter(db, (s: Student) => Matches(q, s))
  {
    var m0: Student -> bool := (s: Student) => true;
    var m1: Student -> bool := (s: Student) => q.category.Some? ==> s.category == q.category.value;
    var m2: Student -> bool := (s: Student) => m1(s) && (q.residence.Some? ==> s.residence == q.residence.value);
    var m3: Student -> bool := (s: Student) => m2(s) && (SemesterFilterOn(q.semester) ==> s.semester == q.semester.value);
    var m4: Student -> bool := (s: Student) => m3(s) && (q.minGpa.Some? ==> s.gpa >= q.minGpa.value);
    FilterAll(db, m0);
    NarrowFilter(db, m0, q.category.Some?, (s: Student) => q.category.Some? && s.category == q.category.value, m1);
    NarrowFilter(db, m1, q.residence.Some?, (s: Student) => q.residence.Some? && s.residence == q.residence.value, m2);
    NarrowFilter(db, m2, SemesterFilterOn(q.semester), (s: Student) => q.semester.Some? && s.semester == q.semester.value, m3);
    NarrowFilter(db, m3, q.minGpa.Some?, (s: Student) => q.minGpa.Some? && s.gpa >= q.minGpa.value, m4);
    NarrowFilter(db, m4, q.maxGpa.Some?, (s: Student) => q.maxGpa.Some? && s.gpa <= q.maxGpa.value, (s: Student) => Matches(q, s));
  }
}
