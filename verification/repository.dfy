/**
 * The student repository over an in-memory `students` table: an ordered
 * sequence of rows whose `id` is the primary key. Database failures other
 * than the ones the table itself produces are given as `faults`: a query
 * named there fails with that message and changes nothing.
 */
module Repository {
  import opened Results
  import opened Models
  import Uuid

  /** The queries the repository sends to the database. */
  datatype Query =
    | Find     // SELECT with OFFSET and LIMIT (GetAll)
    | First    // SELECT ... WHERE id = ? LIMIT 1 (Get)
    | Create   // INSERT (Add)
    | Remove   // DELETE ... WHERE id = ? (Delete)
    | Count    // SELECT count(*) (TotalStudentCount)

  datatype Database = Database(rows: seq<StudentEntity>, faults: map<Query, string>)

  /** What a write reports: the database after it and the error, if any. */
  datatype Mutation = Mutation(db: Database, err: Option<Error>)

  /** The error the database answers `q` with, when it fails that query. */
  function Fault(db: Database, q: Query): (r: Option<Error>)
    ensures r.Some? <==> q in db.faults
  {
    if q in db.faults then Some(Storage(db.faults[q])) else None
  }

  /** True when `uuid.MustParse` accepts the text without panicking. */
  predicate ValidId(id: string)
  {
    Uuid.Parse(id).Some?
  }

  /** Some row of the table has primary key `id`. */
  predicate Stores(rows: seq<StudentEntity>, id: Uuid.UUID)
  {
    exists i :: 0 <= i < |rows| && rows[i].id == id
  }

  /** No two rows share a primary key. */
  predicate UniqueIds(rows: seq<StudentEntity>)
  {
    forall i, j :: 0 <= i < j < |rows| ==> rows[i].id != rows[j].id
  }

  // ----- conversions -----

  /** The row a student is stored as; its id must parse as a UUID. */
  function ModelToEntity(s: Student): (e: StudentEntity)
    requires ValidId(s.id)
    ensures e.name == s.name && e.surname == s.surname
    ensures Uuid.ToString(e.id) == Uuid.Lower(s.id)
  {
    Uuid.ToStringOfParse(s.id);
    StudentEntity(Uuid.Parse(s.id).value, s.name, s.surname)
  }

  /** The student a row is read back as, with the id in its canonical text form. */
  function EntityToModel(e: StudentEntity): (s: Student)
    ensures s.name == e.name && s.surname == e.surname
    ensures Uuid.Lower(s.id) == s.id
    ensures ValidId(s.id) && ModelToEntity(s) == e
  {
    Uuid.ParseToString(e.id);
    Student(Uuid.ToString(e.id), e.name, e.surname)
  }

  /** Reading a row back and storing it again gives the same row. */
  lemma EntityRoundTrip(e: StudentEntity)
    ensures ValidId(EntityToModel(e).id)
    ensures ModelToEntity(EntityToModel(e)) == e
  {
    Uuid.ParseToString(e.id);
  }

  /** A student whose id is the canonical text of a UUID survives storing and reading back unchanged. */
  lemma ModelRoundTrip(s: Student, u: Uuid.UUID)
    requires s.id == Uuid.ToString(u)
    ensures ValidId(s.id)
    ensures EntityToModel(ModelToEntity(s)) == s
  {
    Uuid.ParseToString(u);
  }

  /**
   * Storing a student and reading it back changes nothing but the case of
   * its id: the round trip is exact precisely when the id is in lower case.
   */
  lemma ModelRoundTripIff(s: Student)
    requires ValidId(s.id)
    ensures EntityToModel(ModelToEntity(s)) == s.(id := Uuid.Lower(s.id))
    ensures EntityToModel(ModelToEntity(s)) == s <==> Uuid.Lower(s.id) == s.id
  {
    Uuid.ToStringOfParse(s.id);
  }

  /** The rows converted one by one, in order, as the loop in `GetAll` appends them. */
  function ToModels(es: seq<StudentEntity>): (r: seq<Student>)
    ensures |r| == |es|
    ensures forall i :: 0 <= i < |r| ==> ValidId(r[i].id) && ModelToEntity(r[i]) == es[i]
    ensures forall i :: 0 <= i < |r| ==> Uuid.Lower(r[i].id) == r[i].id
  {
    seq(|es|, i requires 0 <= i < |es| => EntityToModel(es[i]))
  }

  lemma {:induction false} ToModelsConcat(a: seq<StudentEntity>, b: seq<StudentEntity>)
    ensures ToModels(a + b) == ToModels(a) + ToModels(b)
  {
    var l, r := ToModels(a + b), ToModels(a) + ToModels(b);
    assert |l| == |r|;
    forall i | 0 <= i < |l| ensures l[i] == r[i] {
      if i < |a| {
        assert (a + b)[i] == a[i];
      } else {
        assert (a + b)[i] == b[i - |a|];
      }
    }
  }

  // ----- reads -----

  /**
   * The rows an OFFSET/LIMIT query returns, in table order. As in gorm, the
   * offset applies only when positive and the limit only when not negative.
   */
  function Window<T>(rows: seq<T>, offset: int, limit: int): (w: seq<T>)
    ensures |w| <= |rows|
    ensures limit >= 0 ==> |w| <= limit
    ensures offset >= 0 && limit >= 0 ==> |w| == Min(limit, Max(0, |rows| - offset))
    ensures offset >= 0 ==> forall i :: 0 <= i < |w| ==> offset + i < |rows| && w[i] == rows[offset + i]
  {
    var start := if offset > 0 then Min(offset, |rows|) else 0;
    var rest := rows[start..];
    if limit < 0 then rest else rest[..Min(limit, |rest|)]
  }

  /** The row a page starts at: `(page-1)*pageSize`. */
  function Offset(page: int, pageSize: int): (r: int)
    ensures page >= 1 && pageSize >= 1 ==> r >= 0
  {
    (page - 1) * pageSize
  }

  /** A page after the last one starts at or beyond the end of the table. */
  lemma OffsetBeyond(page: int, pages: int, total: int, size: int)
    requires size >= 1 && page > pages && pages * size >= total
    ensures Offset(page, size) >= total
  {
    var d := page - 1 - pages;
    assert (page - 1) * size == pages * size + d * size;
    MulNonNeg(d, size);
  }

  lemma MulNonNeg(a: nat, b: nat)
    ensures a * b >= 0
  {
  }

  /** `GetAll`: the page of `pageSize` rows starting at row `(page-1)*pageSize`. */
  function GetAll(db: Database, page: int, pageSize: int): (r: Result<seq<Student>, Error>)
    ensures Find in db.faults ==> r == Err(Storage(db.faults[Find]))
    ensures Find !in db.faults ==> r.Ok?
    ensures r.Ok? && page >= 1 && pageSize >= 1 ==>
              |r.value| == Min(pageSize, Max(0, |db.rows| - Offset(page, pageSize)))
    ensures r.Ok? && page >= 1 && pageSize >= 1 ==>
              forall i :: 0 <= i < |r.value| ==>
                Offset(page, pageSize) + i < |db.rows| &&
                r.value[i] == EntityToModel(db.rows[Offset(page, pageSize) + i])
  {
    match Fault(db, Find)
    case Some(e) => Err(e)
    case None => Ok(ToModels(Window(db.rows, Offset(page, pageSize), pageSize)))
  }

  /** The position of the first row with primary key `id`. */
  function IndexOf(rows: seq<StudentEntity>, id: Uuid.UUID): (r: Option<nat>)
    ensures r.None? <==> !Stores(rows, id)
    ensures r.Some? ==> r.value < |rows| && rows[r.value].id == id
    ensures r.Some? ==> forall j :: 0 <= j < r.value ==> rows[j].id != id
  {
    if rows == [] then None
    else if rows[0].id == id then Some(0)
    else
      match IndexOf(rows[1..], id)
      case None => None
      case Some(k) => Some(k + 1)
  }

  /** `Get`: the student stored under `id`, or `RecordNotFound` when there is none. */
  function Get(db: Database, id: Uuid.UUID): (r: Result<Student, Error>)
    ensures First in db.faults ==> r == Err(Storage(db.faults[First]))
    ensures First !in db.faults ==> (r.Ok? <==> Stores(db.rows, id))
    ensures First !in db.faults && !Stores(db.rows, id) ==> r == Err(RecordNotFound)
    ensures r.Ok? ==> r.value.id == Uuid.ToString(id)
    ensures r.Ok? ==> exists i :: 0 <= i < |db.rows| && db.rows[i].id == id && r.value == EntityToModel(db.rows[i])
  {
    match Fault(db, First)
    case Some(e) => Err(e)
    case None =>
      match IndexOf(db.rows, id)
      case None => Err(RecordNotFound)
      case Some(k) => Ok(EntityToModel(db.rows[k]))
  }

  /** `TotalStudentCount`: the number of rows in the table. */
  function TotalStudentCount(db: Database): (r: Result<int, Error>)
    ensures Count in db.faults ==> r == Err(Storage(db.faults[Count]))
    ensures Count !in db.faults ==> r == Ok(|db.rows|)
  {
    match Fault(db, Count)
    case Some(e) => Err(e)
    case None => Ok(|db.rows|)
  }

  // ----- writes -----

  /**
   * `Add`: inserts the student's row at the end of the table. The primary
   * key refuses an id that is already stored.
   */
  function Add(db: Database, s: Student): (m: Mutation)
    requires ValidId(s.id)
    ensures Create in db.faults ==> m == Mutation(db, Some(Storage(db.faults[Create])))
    ensures Create !in db.faults ==> (m.err.None? <==> !Stores(db.rows, ModelToEntity(s).id))
    ensures Create !in db.faults && Stores(db.rows, ModelToEntity(s).id) ==> m.err == Some(DuplicateKey)
    ensures m.err.None? ==> m.db == Database(db.rows + [ModelToEntity(s)], db.faults)
    ensures m.err.Some? ==> m.db == db
  {
    var e := ModelToEntity(s);
    match Fault(db, Create)
    case Some(err) => Mutation(db, Some(err))
    case None =>
      if IndexOf(db.rows, e.id).Some? then Mutation(db, Some(DuplicateKey))
      else Mutation(Database(db.rows + [e], db.faults), None)
  }

  /** The rows whose primary key is not `id`, in their original order. */
  function Without(rows: seq<StudentEntity>, id: Uuid.UUID): (r: seq<StudentEntity>)
    ensures forall e :: e in r <==> e in rows && e.id != id
    ensures !Stores(r, id)
    ensures !Stores(rows, id) ==> r == rows
    ensures |r| <= |rows|
  {
    if rows == [] then []
    else if rows[0].id == id then Without(rows[1..], id)
    else [rows[0]] + Without(rows[1..], id)
  }

  /** Removing from a concatenation removes from each part, keeping their order. */
  lemma {:induction false} WithoutConcat(a: seq<StudentEntity>, b: seq<StudentEntity>, id: Uuid.UUID)
    ensures Without(a + b, id) == Without(a, id) + Without(b, id)
  {
    if a == [] {
      assert a + b == b;
    } else {
      assert (a + b)[1..] == a[1..] + b;
      WithoutConcat(a[1..], b, id);
    }
  }

  /**
   * `Delete`: removes every row with primary key `id`; matching no row is
   * still a success. gorm refuses a delete whose primary key is the zero
   * UUID, since the statement would then have no WHERE condition.
   */
  function Delete(db: Database, id: Uuid.UUID): (m: Mutation)
    ensures Remove in db.faults ==> m == Mutation(db, Some(Storage(db.faults[Remove])))
    ensures Remove !in db.faults && id == Uuid.Nil ==> m == Mutation(db, Some(MissingWhereClause))
    ensures m.err.None? <==> Remove !in db.faults && id != Uuid.Nil
    ensures m.db.faults == db.faults
    ensures m.err.None? ==> m.db.rows == Without(db.rows, id)
    ensures m.err.None? ==> forall e :: e in m.db.rows <==> e in db.rows && e.id != id
    ensures m.err.None? && !Stores(db.rows, id) ==> m.db == db
    ensures m.err.Some? ==> m.db == db
  {
    match Fault(db, Remove)
    case Some(err) => Mutation(db, Some(err))
    case None =>
      if id == Uuid.Nil then Mutation(db, Some(MissingWhereClause))
      else Mutation(Database(Without(db.rows, id), db.faults), None)
  }

  // ----- properties relating several operations -----

  /** An insert that succeeds keeps the primary keys distinct. */
  lemma AddPreservesUniqueIds(db: Database, s: Student)
    requires ValidId(s.id) && UniqueIds(db.rows)
    ensures UniqueIds(Add(db, s).db.rows)
  {
    var m := Add(db, s);
    if m.err.None? {
      var e := ModelToEntity(s);
      forall i, j | 0 <= i < j < |m.db.rows| ensures m.db.rows[i].id != m.db.rows[j].id {
        if j == |db.rows| {
          assert m.db.rows[i] == db.rows[i];
        }
      }
    }
  }

  /** With distinct keys, no later row shares the first row's key. */
  lemma HeadKeyNotInTail(rows: seq<StudentEntity>)
    requires rows != [] && UniqueIds(rows)
    ensures UniqueIds(rows[1..])
    ensures forall e :: e in rows[1..] ==> e.id != rows[0].id
  {
    var tail := rows[1..];
    forall i, j | 0 <= i < j < |tail| ensures tail[i].id != tail[j].id {
      assert tail[i] == rows[i + 1] && tail[j] == rows[j + 1];
    }
    forall e | e in tail ensures e.id != rows[0].id {
      var k :| 0 <= k < |tail| && tail[k] == e;
      assert rows[k + 1] == e;
    }
  }

  /** A row whose key no other row has can go in front of rows with distinct keys. */
  lemma ConsUniqueIds(x: StudentEntity, rest: seq<StudentEntity>)
    requires UniqueIds(rest)
    requires forall e :: e in rest ==> e.id != x.id
    ensures UniqueIds([x] + rest)
  {
    var r := [x] + rest;
    forall i, j | 0 <= i < j < |r| ensures r[i].id != r[j].id {
      assert r[j] == rest[j - 1];
      if i == 0 {
        assert rest[j - 1] in rest;
      } else {
        assert r[i] == rest[i - 1];
      }
    }
  }

  /** Removing rows from a sequence with distinct keys leaves distinct keys. */
  lemma {:induction false} WithoutPreservesUniqueIds(rows: seq<StudentEntity>, id: Uuid.UUID)
    requires UniqueIds(rows)
    ensures UniqueIds(Without(rows, id))
  {
    if rows != [] {
      var tail := rows[1..];
      HeadKeyNotInTail(rows);
      WithoutPreservesUniqueIds(tail, id);
      if rows[0].id != id {
        ConsUniqueIds(rows[0], Without(tail, id));
      }
    }
  }

  lemma DeletePreservesUniqueIds(db: Database, id: Uuid.UUID)
    requires UniqueIds(db.rows)
    ensures UniqueIds(Delete(db, id).db.rows)
  {
    WithoutPreservesUniqueIds(db.rows, id);
  }

  /** A successful insert makes the row readable under its id, as the student with the canonical id text. */
  lemma {:induction false} AddThenGet(db: Database, s: Student)
    requires ValidId(s.id)
    requires Add(db, s).err.None? && First !in db.faults
    ensures Get(Add(db, s).db, ModelToEntity(s).id) == Ok(EntityToModel(ModelToEntity(s)))
  {
    var e := ModelToEntity(s);
    var rows := Add(db, s).db.rows;
    assert rows == db.rows + [e];
    var k := IndexOf(rows, e.id);
    assert rows[|db.rows|].id == e.id;
    assert k.Some?;
  }

  /** A successful insert adds exactly one row to the count. */
  lemma AddIncrementsCount(db: Database, s: Student)
    requires ValidId(s.id)
    requires Add(db, s).err.None? && Count !in db.faults
    ensures TotalStudentCount(db) == Ok(|db.rows|)
    ensures TotalStudentCount(Add(db, s).db) == Ok(|db.rows| + 1)
  {
  }

  /** Deleting twice is the same as deleting once. */
  lemma DeleteIdempotent(db: Database, id: Uuid.UUID)
    ensures Delete(Delete(db, id).db, id) == Delete(db, id)
  {
  }

  /** After a successful delete, the id reads as not found. */
  lemma DeleteThenGet(db: Database, id: Uuid.UUID)
    requires Delete(db, id).err.None? && First !in db.faults
    ensures Get(Delete(db, id).db, id) == Err(RecordNotFound)
  {
  }

  // ----- paging through the table -----

  /** The students of pages 1 to `n`, read one page after the other. */
  function Pages(db: Database, size: int, n: nat): seq<Student>
  {
    if n == 0 then [] else Pages(db, size, n - 1) + GetAll(db, n, size).GetOr([])
  }

  /** A window with a non-negative offset and a positive limit is a slice of the table. */
  lemma WindowIsSlice<T>(rows: seq<T>, offset: int, limit: int)
    requires offset >= 0 && limit >= 1
    ensures Window(rows, offset, limit) == rows[Min(offset, |rows|)..Min(offset + limit, |rows|)]
  {
  }

  lemma SplitPrefix<T>(s: seq<T>, lo: int, hi: int)
    requires 0 <= lo <= hi <= |s|
    ensures s[..hi] == s[..lo] + s[lo..hi]
  {
  }

  /** Page `n` holds the rows from `(n-1)*size` up to `n*size`, cut at the end of the table. */
  lemma PageContents(db: Database, size: int, n: int)
    requires size >= 1 && n >= 1 && Find !in db.faults
    ensures 0 <= Offset(n, size) <= n * size
    ensures GetAll(db, n, size).value ==
              ToModels(db.rows[Min(Offset(n, size), |db.rows|)..Min(n * size, |db.rows|)])
  {
    var off := Offset(n, size);
    assert off + size == n * size;
    WindowIsSlice(db.rows, off, size);
    assert GetAll(db, n, size).value == ToModels(Window(db.rows, off, size));
  }

  /** Windows 1 to `n` of `size` rows each, one after the other. */
  function Chunks<T>(rows: seq<T>, size: int, n: nat): seq<T>
  {
    if n == 0 then [] else Chunks(rows, size, n - 1) + Window(rows, (n - 1) * size, size)
  }

  /** The first `n` windows of `size` rows are the first `n*size` rows. */
  lemma {:induction false} ChunksArePrefix<T>(rows: seq<T>, size: int, n: nat)
    requires size >= 1
    ensures 0 <= n * size
    ensures Chunks(rows, size, n) == rows[..Min(n * size, |rows|)]
  {
    if n > 0 {
      var m: nat := n - 1;
      ChunksArePrefix(rows, size, m);
      var off := m * size;
      assert off + size == n * size;
      WindowIsSlice(rows, off, size);
      SplitPrefix(rows, Min(off, |rows|), Min(off + size, |rows|));
    }
  }

  /** Reading pages 1 to `n` converts the first `n` windows of the table. */
  lemma {:induction false} PagesAreChunks(db: Database, size: int, n: nat)
    requires size >= 1 && Find !in db.faults
    ensures Pages(db, size, n) == ToModels(Chunks(db.rows, size, n))
  {
    if n > 0 {
      var m: nat := n - 1;
      var w := Window(db.rows, Offset(n, size), size);
      assert Pages(db, size, n) == Pages(db, size, m) + ToModels(w);
      assert Chunks(db.rows, size, n) == Chunks(db.rows, size, m) + w;
      PagesAreChunks(db, size, m);
      ToModelsConcat(Chunks(db.rows, size, m), w);
    }
  }

  /** Once the pages reach the end of the table, together they list every row exactly once, in order. */
  lemma PagesCover(db: Database, size: int, n: nat)
    requires size >= 1 && Find !in db.faults && n * size >= |db.rows|
    ensures Pages(db, size, n) == ToModels(db.rows)
  {
    PagesAreChunks(db, size, n);
    ChunksArePrefix(db.rows, size, n);
    assert db.rows[..|db.rows|] == db.rows;
  }

  /** When the table fits on one page, page 1 after a successful insert is the old rows and then the new one. */
  lemma AddThenFirstPage(db: Database, s: Student, size: int)
    requires ValidId(s.id) && Add(db, s).err.None? && Find !in db.faults
    requires |db.rows| < size
    ensures GetAll(Add(db, s).db, 1, size) == Ok(ToModels(db.rows) + [EntityToModel(ModelToEntity(s))])
  {
    var e := ModelToEntity(s);
    var rows := db.rows + [e];
    var after := Add(db, s).db;
    assert after == Database(rows, db.faults);
    assert Offset(1, size) == 0;
    assert GetAll(after, 1, size) == Ok(ToModels(Window(rows, 0, size)));
    WindowIsSlice(rows, 0, size);
    assert Window(rows, 0, size) == rows[0..|rows|] == rows;
    ToModelsConcat(db.rows, [e]);
    assert ToModels([e]) == [EntityToModel(e)];
  }
}
