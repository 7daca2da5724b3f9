/** The CRUD handlers over the in-memory student list. The list is an explicit input,
    and every handler that changes it returns the new list; an error leaves it as it was. */
module Store {
  import opened Outcome
  import opened Records
  import opened Seqs

  /** A record found by id, with its position in the list. */
  datatype Found = Found(index: nat, student: Student)

  /** The list after a successful update or delete, with the record the response
      reports (the updated record, or the removed one). */
  datatype Change = Change(db: seq<Student>, student: Student)

  /** Linear search for the first record with the given id. */
  function FindStudent(db: seq<Student>, id: int): (r: Result<Found>)
    ensures r.Ok? <==> HasId(db, id)
    ensures r.Err? ==> r.error == NotFound(id)
    ensures r.Ok? ==> r.value.index < |db| && db[r.value.index] == r.value.student
    ensures r.Ok? ==> r.value.student.id == id
    ensures r.Ok? ==> forall j :: 0 <= j < r.value.index ==> db[j].id != id
  {
    if |db| == 0 then Err(NotFound(id))
    else if db[0].id == id then Ok(Found(0, db[0]))
    else
      match FindStudent(db[1..], id)
      case Ok(f) => Ok(Found(f.index + 1, f.student))
      case Err(e) => Err(e)
  }

  /** The single-record read: the found record without its position. */
  function GetStudent(db: seq<Student>, id: int): (r: Result<Student>)
    ensures r.Ok? <==> HasId(db, id)
    ensures r.Err? ==> r.error == NotFound(id)
    ensures r.Ok? ==> r.value in db && r.value.id == id
    ensures r.Ok? ==> r.value == FindStudent(db, id).value.student
    ensures r.Ok? && UniqueIds(db) ==> forall i :: 0 <= i < |db| && db[i].id == id ==> db[i] == r.value
  {
    match FindStudent(db, id)
    case Ok(f) => Ok(f.student)
    case Err(e) => Err(e)
  }

  /** Appends a validated record whose id is not yet in use. */
  function AddStudent(db: seq<Student>, s: Student): (r: Result<seq<Student>>)
    ensures r.Err? <==> !WellFormed(s) || HasId(db, s.id)
    ensures r.Err? && WellFormed(s) ==> r.error == AlreadyExists(s.id)
    ensures r.Err? && !WellFormed(s) ==> r.error == Unprocessable
    ensures r.Ok? ==> |r.value| == |db| + 1 && r.value[..|db|] == db && r.value[|db|] == s
    ensures r.Ok? && UniqueIds(db) ==> UniqueIds(r.value)
    ensures r.Ok? && AllWellFormed(db) ==> AllWellFormed(r.value)
  {
    if !WellFormed(s) then Err(Unprocessable)
    else if HasId(db, s.id) then Err(AlreadyExists(s.id))
    else Ok(db + [s])
  }

  /** Applies a validated partial update to the first record with the given id. */
  function UpdateStudent(db: seq<Student>, id: int, u: StudentUpdate): (r: Result<Change>)
    ensures r.Err? <==> !UpdateValid(u) || !HasId(db, id)
    ensures r.Err? && UpdateValid(u) ==> r.error == NotFound(id)
    ensures r.Err? && !UpdateValid(u) ==> r.error == Unprocessable
    ensures r.Ok? ==> |r.value.db| == |db|
    ensures r.Ok? ==> var i := FindStudent(db, id).value.index;
                      && r.value.db[i] == r.value.student == ApplyUpdate(db[i], u)
                      && forall j :: 0 <= j < |db| && j != i ==> r.value.db[j] == db[j]
    ensures r.Ok? && UniqueIds(db) ==> UniqueIds(r.value.db)
  {
    if !UpdateValid(u) then Err(Unprocessable)
    else
      match FindStudent(db, id)
      case Err(e) => Err(e)
      case Ok(f) =>
        var updated := ApplyUpdate(f.student, u);
        Ok(Change(db[f.index := updated], updated))
  }

  /** Removes the first record with the given id. */
  function DeleteStudent(db: seq<Student>, id: int): (r: Result<Change>)
    ensures r.Err? <==> !HasId(db, id)
    ensures r.Err? ==> r.error == NotFound(id)
    ensures r.Ok? ==> |r.value.db| == |db| - 1 && r.value.student.id == id
    ensures r.Ok? ==> var i := FindStudent(db, id).value.index;
                      && r.value.student == db[i]
                      && r.value.db[..i] == db[..i]
                      && r.value.db[i..] == db[i + 1..]
    ensures r.Ok? ==> IsSubseq(r.value.db, db)
    ensures r.Ok? ==> multiset(r.value.db) + multiset{r.value.student} == multiset(db)
    ensures r.Ok? && UniqueIds(db) ==> UniqueIds(r.value.db) && !HasId(r.value.db, id)
  {
    match FindStudent(db, id)
    case Err(e) => Err(e)
    case Ok(f) =>
      RemoveAtFacts(db, f.index);
      Ok(Change(db[..f.index] + db[f.index + 1..], f.student))
  }

  /** What removing the record at position `i` leaves behind. */
  lemma RemoveAtFacts(db: seq<Student>, i: nat)
    requires i < |db|
    ensures |db[..i] + db[i + 1..]| == |db| - 1
    ensures IsSubseq(db[..i] + db[i + 1..], db)
    ensures multiset(db[..i] + db[i + 1..]) + multiset{db[i]} == multiset(db)
    ensures UniqueIds(db) ==> UniqueIds(db[..i] + db[i + 1..]) && !HasId(db[..i] + db[i + 1..], db[i].id)
  {
    RemoveAtIsSubseq(db, i);
    assert db == db[..i] + [db[i]] + db[i + 1..];
    if UniqueIds(db) {
      RemoveAtKeepsIdsUnique(db, i);
    }
  }

  lemma RemoveAtKeepsIdsUnique(db: seq<Student>, i: nat)
    requires i < |db| && UniqueIds(db)
    ensures UniqueIds(db[..i] + db[i + 1..]) && !HasId(db[..i] + db[i + 1..], db[i].id)
  {
    var rest := db[..i] + db[i + 1..];
    assert forall j :: 0 <= j < |rest| ==> rest[j] == db[if j < i then j else j + 1];
  }
}

/** How the create, update and delete handlers relate to each other and to lookup,
    and the id-uniqueness invariant of the request sequence they form. */
module StoreLaws {
  import opened Outcome
  import opened Records
  import opened Store

  /** A newly added record is found by its id, at the end of the list. */
  lemma AddThenFind(db: seq<Student>, s: Student)
    requires AddStudent(db, s).Ok?
    ensures FindStudent(AddStudent(db, s).value, s.id) == Ok(Found(|db|, s))
  {
  }

  /** Deleting the record just added restores the list. */
  lemma AddThenDelete(db: seq<Student>, s: Student)
    requires AddStudent(db, s).Ok?
    ensures DeleteStudent(AddStudent(db, s).value, s.id) == Ok(Change(db, s))
  {
    var db' := AddStudent(db, s).value;
    AddThenFind(db, s);
    assert db'[..|db|] + db'[|db| + 1..] == db;
  }

  /** After an update the record is still found at the same position, now holding
      the updated fields. */
  lemma UpdateThenFind(db: seq<Student>, id: int, u: StudentUpdate)
    requires UpdateStudent(db, id, u).Ok?
    ensures FindStudent(UpdateStudent(db, id, u).value.db, id)
         == Ok(Found(FindStudent(db, id).value.index, UpdateStudent(db, id, u).value.student))
  {
  }

  /** Sending the same update twice changes nothing the first one did not. */
  lemma UpdateIdempotent(db: seq<Student>, id: int, u: StudentUpdate)
    requires UpdateStudent(db, id, u).Ok?
    ensures UpdateStudent(UpdateStudent(db, id, u).value.db, id, u)
         == UpdateStudent(db, id, u)
  {
    UpdateThenFind(db, id, u);
    var c := UpdateStudent(db, id, u).value;
    var i := FindStudent(db, id).value.index;
    assert ApplyUpdate(c.student, u) == c.student;
    assert c.db[i := c.student] == c.db;
  }

  /** An update that supplies no field leaves the list as it was. */
  lemma UpdateNothingChangesNothing(db: seq<Student>, id: int)
    requires HasId(db, id)
    ensures UpdateStudent(db, id, NoChange) == Ok(Change(db, FindStudent(db, id).value.student))
  {
    var f := FindStudent(db, id).value;
    assert ApplyUpdate(f.student, NoChange) == f.student;
    assert db[f.index := f.student] == db;
  }

  /** The update's name field, as written, has no minimum length: a valid update can
      give a well-formed record an empty name. */
  lemma UpdateCanEmptyName()
    ensures var db := [Student(1, "Asha", General, Hosteller, 8.0, 3)];
            var u := StudentUpdate(Some(""), None, None, None, None);
            && AllWellFormed(db)
            && UpdateValid(u)
            && UpdateStudent(db, 1, u).Ok?
            && !AllWellFormed(UpdateStudent(db, 1, u).value.db)
  {
  }

  /** The update bounds with the name's minimum length of a new record added. */
  predicate UpdateValidStrict(u: StudentUpdate)
  {
    UpdateValid(u) && (u.name.Some? ==> |u.name.value| >= 1)
  }

  /** The update handler with the name bound enforced: it keeps every record well formed. */
  function UpdateStudentChecked(db: seq<Student>, id: int, u: StudentUpdate): (r: Result<Change>)
    ensures r.Err? <==> !UpdateValidStrict(u) || !HasId(db, id)
    ensures r.Err? && UpdateValidStrict(u) ==> r.error == NotFound(id)
    ensures r.Err? && !UpdateValidStrict(u) ==> r.error == Unprocessable
    ensures r.Ok? ==> Ok(r.value) == UpdateStudent(db, id, u)
    ensures r.Ok? && AllWellFormed(db) ==> AllWellFormed(r.value.db) && WellFormed(r.value.student)
  {
    if !UpdateValidStrict(u) then Err(Unprocessable)
    else UpdateStudent(db, id, u)
  }

  /** The state-changing requests. */
  datatype Request =
    | AddRequest(student: Student)
    | UpdateRequest(id: int, updates: StudentUpdate)
    | DeleteRequest(id: int)

  /** The list after one request; a request that ends in an error changes nothing.
      Updates go through the name-checking handler. */
  function Step(db: seq<Student>, req: Request): seq<Student>
  {
    match req
    case AddRequest(s) =>
      (match AddStudent(db, s) case Ok(db') => db' case Err(_) => db)
    case UpdateRequest(id, u) =>
      (match UpdateStudentChecked(db, id, u) case Ok(c) => c.db case Err(_) => db)
    case DeleteRequest(id) =>
      (match DeleteStudent(db, id) case Ok(c) => c.db case Err(_) => db)
  }

  lemma StepPreservesInvariant(db: seq<Student>, req: Request)
    requires UniqueIds(db) && AllWellFormed(db)
    ensures UniqueIds(Step(db, req)) && AllWellFormed(Step(db, req))
  {
  }

  /** The list after a sequence of requests, served in order. */
  function Run(db: seq<Student>, reqs: seq<Request>): seq<Student>
    decreases |reqs|
  {
    if |reqs| == 0 then db else Run(Step(db, reqs[0]), reqs[1..])
  }

  /** Starting from a list of well-formed records with unique ids, every sequence of
      requests keeps the records well formed and their ids unique. */
  lemma {:induction false} RunPreservesInvariant(db: seq<Student>, reqs: seq<Request>)
    requires UniqueIds(db) && AllWellFormed(db)
    ensures UniqueIds(Run(db, reqs)) && AllWellFormed(Run(db, reqs))
    decreases |reqs|
  {
    if |reqs| > 0 {
      StepPreservesInvariant(db, reqs[0]);
      RunPreservesInvariant(Step(db, reqs[0]), reqs[1..]);
    }
  }

  /** The list after one request, with updates served by the handler as written. */
  function StepAsWritten(db: seq<Student>, req: Request): seq<Student>
  {
    match req
    case AddRequest(s) =>
      (match AddStudent(db, s) case Ok(db') => db' case Err(_) => db)
    case UpdateRequest(id, u) =>
      (match UpdateStudent(db, id, u) case Ok(c) => c.db case Err(_) => db)
    case DeleteRequest(id) =>
      (match DeleteStudent(db, id) case Ok(c) => c.db case Err(_) => db)
  }

  /** The list after a sequence of requests served by the handlers as written. */
  function RunAsWritten(db: seq<Student>, reqs: seq<Request>): seq<Student>
    decreases |reqs|
  {
    if |reqs| == 0 then db else RunAsWritten(StepAsWritten(db, reqs[0]), reqs[1..])
  }

  /** The handlers as written keep ids unique over any sequence of requests. */
  lemma {:induction false} RunAsWrittenPreservesUniqueIds(db: seq<Student>, reqs: seq<Request>)
    requires UniqueIds(db)
    ensures UniqueIds(RunAsWritten(db, reqs))
    decreases |reqs|
  {
    if |reqs| > 0 {
      RunAsWrittenPreservesUniqueIds(StepAsWritten(db, reqs[0]), reqs[1..]);
    }
  }
}
