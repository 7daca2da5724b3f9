/** The student record, the partial update applied to it, and the predicates that
    describe a well-formed database. */
module Records {
  import opened Outcome

  datatype Category = SC | ST | General

  datatype Residence = Hosteller | DayScholar

  datatype Student = Student(
    id: int,
    name: string,
    category: Category,
    residence: Residence,
    gpa: real,
    semester: int
  )

  /** The field bounds the request model declares for a new record: a non-empty
      name, a GPA in [0, 10] and a semester in [1, 8]. */
  predicate WellFormed(s: Student)
  {
    |s.name| >= 1 && 0.0 <= s.gpa <= 10.0 && 1 <= s.semester <= 8
  }

  predicate AllWellFormed(db: seq<Student>)
  {
    forall i :: 0 <= i < |db| ==> WellFormed(db[i])
  }

  /** A partial update: every field is optional, and the id cannot be changed. */
  datatype StudentUpdate = StudentUpdate(
    name: Option<string>,
    category: Option<Category>,
    residence: Option<Residence>,
    gpa: Option<real>,
    semester: Option<int>
  )

  /** The update that supplies no field at all. */
  const NoChange := StudentUpdate(None, None, None, None, None)

  /** The bounds the update model declares, as written: GPA and semester are bounded
      like a new record's, but the name carries no minimum length. */
  predicate UpdateValid(u: StudentUpdate)
  {
    && (u.gpa.Some? ==> 0.0 <= u.gpa.value <= 10.0)
    && (u.semester.Some? ==> 1 <= u.semester.value <= 8)
  }

  /** Overwrites the fields the update supplies and keeps the others, as a
      dictionary update with the update's non-None fields does. */
  function ApplyUpdate(s: Student, u: StudentUpdate): (r: Student)
    ensures r.id == s.id
    ensures u.name.None? ==> r.name == s.name
    ensures u.name.Some? ==> r.name == u.name.value
    ensures u.category.None? ==> r.category == s.category
    ensures u.category.Some? ==> r.category == u.category.value
    ensures u.residence.None? ==> r.residence == s.residence
    ensures u.residence.Some? ==> r.residence == u.residence.value
    ensures u.gpa.None? ==> r.gpa == s.gpa
    ensures u.gpa.Some? ==> r.gpa == u.gpa.value
    ensures u.semester.None? ==> r.semester == s.semester
    ensures u.semester.Some? ==> r.semester == u.semester.value
  {
    Student(
      s.id,
      if u.name.Some? then u.name.value else s.name,
      if u.category.Some? then u.category.value else s.category,
      if u.residence.Some? then u.residence.value else s.residence,
      if u.gpa.Some? then u.gpa.value else s.gpa,
      if u.semester.Some? then u.semester.value else s.semester
    )
  }

  predicate HasId(db: seq<Student>, id: int)
  {
    exists i :: 0 <= i < |db| && db[i].id == id
  }

  /** The invariant the create/update/delete handlers keep: no two records share an id. */
  predicate UniqueIds(db: seq<Student>)
  {
    forall i, j :: 0 <= i < j < |db| ==> db[i].id != db[j].id
  }
}
