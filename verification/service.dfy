/**
 * The student service: validates requests, assigns ids and computes the
 * page descriptor, delegating storage to the repository. Every reply
 * records the repository calls the service made, in order.
 */
module Service {
  import opened Results
  import opened Models
  import Uuid
  import Repository

  /** A call the service makes on its repository. */
  datatype Call =
    | GetCall(id: Uuid.UUID)
    | AddCall(student: Student)
    | DeleteCall(id: Uuid.UUID)
    | GetAllCall(page: int, pageSize: int)
    | CountCall

  /** Go's `(value, error)` result, with the database after the call and the calls made. */
  datatype Reply<T> = Reply(db: Repository.Database, value: T, err: Option<Error>, calls: seq<Call>)

  // ----- page arithmetic -----

  /** `pages` is the ceiling of `total / size`: the fewest pages of `size` that hold `total` items. */
  predicate IsCeiling(pages: int, total: int, size: int)
  {
    pages * size >= total && (pages - 1) * size < total
  }

  /**
   * The total page count as the service computes it, `(total + size - 1) / size`:
   * the ceiling of `total / size`, and zero exactly for an empty table.
   */
  function PageCount(total: nat, size: int): (pages: int)
    requires size >= 1
    ensures IsCeiling(pages, total, size)
    ensures pages >= 0
    ensures pages == 0 <==> total == 0
  {
    var q, r := (total + size - 1) / size, (total + size - 1) % size;
    assert total + size - 1 == q * size + r && 0 <= r < size;
    assert q * size == total + size - 1 - r;
    assert (q - 1) * size == total - 1 - r;
    q
  }

  /** There is only one ceiling, so the descriptor's page count is fixed by its totals. */
  lemma CeilingIsUnique(p: int, q: int, total: int, size: int)
    requires size >= 1
    requires IsCeiling(p, total, size) && IsCeiling(q, total, size)
    ensures p == q
  {
  }

  // ----- operations -----

  /** `Get`: the repository's student and error, unchanged; no student when there is an error. */
  function Get(db: Repository.Database, id: Uuid.UUID): (r: Reply<Option<Student>>)
    ensures r.db == db && r.calls == [GetCall(id)]
    ensures r.value.Some? <==> r.err.None?
    ensures Repository.Get(db, id).Ok? ==> r.value == Some(Repository.Get(db, id).value)
    ensures Repository.Get(db, id).Err? ==> r.err == Some(Repository.Get(db, id).error)
  {
    match Repository.Get(db, id)
    case Err(e) => Reply(db, None, Some(e), [GetCall(id)])
    case Ok(s) => Reply(db, Some(s), None, [GetCall(id)])
  }

  /** `Delete`: the repository's delete and its error, unchanged. */
  function Delete(db: Repository.Database, id: Uuid.UUID): (r: Reply<()>)
    ensures r.calls == [DeleteCall(id)]
    ensures r.db == Repository.Delete(db, id).db
    ensures r.err == Repository.Delete(db, id).err
  {
    var m := Repository.Delete(db, id);
    Reply(m.db, (), m.err, [DeleteCall(id)])
  }

  /**
   * `Add`: refuses a student without a name or surname before anything
   * else; otherwise gives it the text of the freshly generated `newId` as
   * its id and makes one repository insert. The reply's value is the
   * student as the caller sees it afterwards.
   */
  function Add(db: Repository.Database, student: Student, newId: Uuid.UUID): (r: Reply<Student>)
    ensures student.name == [] || student.surname == [] ==>
              r == Reply(db, student, Some(Invalid(NameRequired)), [])
    ensures student.name != [] && student.surname != [] ==>
              && r.value == Student(Uuid.ToString(newId), student.name, student.surname)
              && r.calls == [AddCall(r.value)]
              && Repository.ValidId(r.value.id)
              && r.db == Repository.Add(db, r.value).db
              && r.err == Repository.Add(db, r.value).err
  {
    if student.name == [] || student.surname == [] then
      Reply(db, student, Some(Invalid(NameRequired)), [])
    else
      var s := student.(id := Uuid.ToString(newId));
      Uuid.ParseToString(newId);
      var m := Repository.Add(db, s);
      Reply(m.db, s, m.err, [AddCall(s)])
  }

  /**
   * `GetAll`: refuses a page or page size below 1 without calling the
   * repository; otherwise reads the page, then the total, and describes
   * the page. Any failure yields the zero-valued response.
   */
  function GetAll(db: Repository.Database, page: int, pageSize: int): (r: Reply<PaginationResponse>)
    ensures r.db == db
    ensures page <= 0 || pageSize <= 0 ==> r == Reply(db, EmptyResponse, Some(Invalid(PageTooLow)), [])
    ensures r.err.Some? ==> r.value == EmptyResponse
    ensures r.err.None? <==>
              page >= 1 && pageSize >= 1 && Repository.Find !in db.faults && Repository.Count !in db.faults
    ensures page >= 1 && pageSize >= 1 && Repository.GetAll(db, page, pageSize).Err? ==>
              r.err == Some(Repository.GetAll(db, page, pageSize).error) &&
              r.calls == [GetAllCall(page, pageSize)]
    ensures page >= 1 && pageSize >= 1 && Repository.GetAll(db, page, pageSize).Ok? &&
            Repository.TotalStudentCount(db).Err? ==>
              r.err == Some(Repository.TotalStudentCount(db).error) &&
              r.calls == [GetAllCall(page, pageSize), CountCall]
    ensures r.err.None? ==>
              && page >= 1 && pageSize >= 1
              && r.calls == [GetAllCall(page, pageSize), CountCall]
              && Repository.GetAll(db, page, pageSize) == Ok(r.value.students)
              && r.value.page.number == page
              && r.value.page.size == pageSize
              && r.value.page.elements == |db.rows|
              && IsCeiling(r.value.page.pages, r.value.page.elements, pageSize)
              && (r.value.page.pages == 0 <==> r.value.page.elements == 0)
  {
    if page <= 0 || pageSize <= 0 then
      Reply(db, EmptyResponse, Some(Invalid(PageTooLow)), [])
    else
      match Repository.GetAll(db, page, pageSize)
      case Err(e) => Reply(db, EmptyResponse, Some(e), [GetAllCall(page, pageSize)])
      case Ok(students) =>
        match Repository.TotalStudentCount(db)
        case Err(e) => Reply(db, EmptyResponse, Some(e), [GetAllCall(page, pageSize), CountCall])
        case Ok(total) =>
          var info := Page(page, pageSize, total, PageCount(total, pageSize));
          Reply(db, PaginationResponse(students, info), None, [GetAllCall(page, pageSize), CountCall])
  }

  // ----- properties across calls -----

  /** The students of pages 1 to `n` as the service lists them, one page after the other. */
  function Pages(db: Repository.Database, size: int, n: nat): seq<Student>
  {
    if n == 0 then [] else Pages(db, size, n - 1) + GetAll(db, n, size).value.students
  }

  lemma {:induction false} ServicePagesAreRepositoryPages(db: Repository.Database, size: int, n: nat)
    requires size >= 1
    requires Repository.Find !in db.faults && Repository.Count !in db.faults
    ensures Pages(db, size, n) == Repository.Pages(db, size, n)
  {
    if n > 0 {
      ServicePagesAreRepositoryPages(db, size, n - 1);
    }
  }

  /**
   * Reading every page the descriptor announces lists every stored student
   * exactly once, in table order; any page after the last one is empty.
   */
  lemma ListingCoversStore(db: Repository.Database, size: int, page: int)
    requires size >= 1 && page >= 1
    requires Repository.Find !in db.faults && Repository.Count !in db.faults
    ensures GetAll(db, 1, size).err.None?
    ensures Pages(db, size, GetAll(db, 1, size).value.page.pages) == Repository.ToModels(db.rows)
    ensures page > GetAll(db, 1, size).value.page.pages ==> GetAll(db, page, size).value.students == []
  {
    var pages := GetAll(db, 1, size).value.page.pages;
    ServicePagesAreRepositoryPages(db, size, pages);
    Repository.PagesCover(db, size, pages);
    if page > pages {
      Repository.OffsetBeyond(page, pages, |db.rows|, size);
    }
  }

  /**
   * A valid student added under a UUID the table does not hold can then be
   * read back by that UUID, exactly as `Add` returned it.
   */
  lemma AddThenGet(db: Repository.Database, student: Student, newId: Uuid.UUID)
    requires student.name != [] && student.surname != []
    requires Repository.Create !in db.faults && Repository.First !in db.faults
    requires !Repository.Stores(db.rows, newId)
    ensures Add(db, student, newId).err.None?
    ensures Get(Add(db, student, newId).db, newId).value == Some(Add(db, student, newId).value)
  {
    var a := Add(db, student, newId);
    Repository.ModelRoundTrip(a.value, newId);
    Uuid.ParseToString(newId);
    Repository.AddThenGet(db, a.value);
  }

  /**
   * Adding a valid student under a new UUID to a table with fewer than
   * `size` rows and then listing page 1 shows the earlier students followed
   * by the new one, which appears exactly once.
   */
  lemma AddThenList(db: Repository.Database, student: Student, newId: Uuid.UUID, size: int)
    requires student.name != [] && student.surname != []
    requires Repository.Create !in db.faults && Repository.Find !in db.faults && Repository.Count !in db.faults
    requires !Repository.Stores(db.rows, newId)
    requires |db.rows| < size
    ensures Add(db, student, newId).err.None?
    ensures GetAll(Add(db, student, newId).db, 1, size).err.None?
    ensures GetAll(Add(db, student, newId).db, 1, size).value.students ==
              Repository.ToModels(db.rows) + [Add(db, student, newId).value]
    ensures forall i :: 0 <= i < |db.rows| ==>
              GetAll(Add(db, student, newId).db, 1, size).value.students[i].id != Add(db, student, newId).value.id
    ensures GetAll(Add(db, student, newId).db, 1, size).value.page == Page(1, size, |db.rows| + 1, 1)
  {
    var a := Add(db, student, newId);
    Repository.ModelRoundTrip(a.value, newId);
    Uuid.ParseToString(newId);
    Repository.AddThenFirstPage(db, a.value, size);
    var l := GetAll(a.db, 1, size);
    assert l.value.students == Repository.ToModels(db.rows) + [a.value];
    forall i | 0 <= i < |db.rows| ensures l.value.students[i].id != a.value.id {
      assert l.value.students[i] == Repository.EntityToModel(db.rows[i]);
      Uuid.ToStringInjective(db.rows[i].id, newId);
    }
    CeilingIsUnique(l.value.page.pages, 1, |db.rows| + 1, size);
  }

  /** Deleting through the service twice gives the same reply, and the same table, as deleting once. */
  lemma DeleteIsIdempotent(db: Repository.Database, id: Uuid.UUID)
    ensures Delete(Delete(db, id).db, id) == Delete(db, id)
    ensures Delete(db, id).err.None? ==> Delete(Delete(db, id).db, id).err.None?
  {
    Repository.DeleteIdempotent(db, id);
  }

  /** Reading an id the table does not hold reports `RecordNotFound` and no student. */
  lemma GetMissingIsNotFound(db: Repository.Database, id: Uuid.UUID)
    requires Repository.First !in db.faults && !Repository.Stores(db.rows, id)
    ensures Get(db, id) == Reply(db, None, Some(RecordNotFound), [GetCall(id)])
  {
  }

  /** Deleting an id the table does not hold succeeds and leaves the table as it was. */
  lemma DeleteAbsentSucceeds(db: Repository.Database, id: Uuid.UUID)
    requires Repository.Remove !in db.faults && id != Uuid.Nil && !Repository.Stores(db.rows, id)
    ensures Delete(db, id) == Reply(db, (), None, [DeleteCall(id)])
  {
  }

  /** Adding and deleting through the service keep every primary key distinct. */
  lemma ServiceKeepsIdsUnique(db: Repository.Database, student: Student, newId: Uuid.UUID, id: Uuid.UUID)
    requires Repository.UniqueIds(db.rows)
    ensures Repository.UniqueIds(Add(db, student, newId).db.rows)
    ensures Repository.UniqueIds(Delete(db, id).db.rows)
  {
    if student.name != [] && student.surname != [] {
      Uuid.ParseToString(newId);
      Repository.AddPreservesUniqueIds(db, Add(db, student, newId).value);
    }
    Repository.DeletePreservesUniqueIds(db, id);
  }
}
