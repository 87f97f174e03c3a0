# Student records service: a Dafny model

This project models the core of a small student-records web service written in Go.
The service stores students (an id, a name and a surname) and offers four operations:
add, fetch by id, list one page, and delete. The model covers two layers:

- the **service layer** (`backend/internal/student/services/service.go`), which checks
  requests, assigns ids, computes the page descriptor and passes every storage result
  through unchanged;
- the **repository layer** (`backend/internal/student/repository/repository.go`), here
  with the meaning it has against an in-memory `students` table. The table is an
  ordered sequence of `StudentEntity` rows, and `id` is the primary key.

Files and modules:

| file | module | contents |
|---|---|---|
| `results.dfy` | `Results` | `Option`, `Result`, `Min`, `Max` |
| `uuid.dfy` | `Uuid` | the 16-byte UUID, its canonical text (`ToString`) and `Parse`, with both round trips |
| `models.dfy` | `Models` | `Student`, `StudentEntity`, `Page`, `PaginationResponse`, the errors |
| `repository.dfy` | `Repository` | the table, the five queries, the two conversions, paging lemmas |
| `service.dfy` | `Service` | `Get`, `Delete`, `Add`, `GetAll`, page arithmetic, end-to-end lemmas |

How the Go program maps to Dafny:

- **Errors.** A Go `(value, error)` pair becomes `Service.Reply(db, value, err, calls)`.
  `db` is the table after the call. `calls` lists the repository calls the service made,
  in order, so "the repository is not called" is stated as `calls == []`.
- **Database failures.** `Database.faults` maps a query (`Find`, `First`, `Create`,
  `Remove`, `Count`) to an error message. A query named there fails with
  `Storage(message)` and changes nothing. This is how the model covers the
  `if err != nil { return ..., err }` paths without a real database.
- **Table rules.** Some failures come from the table itself, and these are modelled:
  - a point read that matches no row gives `RecordNotFound` (gorm's `First`);
  - inserting an id that is already stored gives `DuplicateKey`, because `ID` is the
    primary key (`models/model.go:12`);
  - gorm refuses a delete whose primary key is the zero UUID, since that statement
    would have no `WHERE` condition. The model gives `MissingWhereClause` there.
    Deleting any other absent id succeeds.
- **Id generation.** `uuid.New()` becomes the `newId` parameter of `Service.Add`. The
  lemmas that need a new id require that the table does not already hold it.

## Model

| member | source | states |
|---|---|---|
| `Uuid.Parse` | backend/internal/student/repository/repository.go:78 | the text is accepted only with dashes at 8, 13, 18 and 23 and a valid hex digit pair for each byte; each byte is the value of its pair; a well-placed text that is refused has a bad pair |
| `Uuid.ParseToString` | backend/internal/student/repository/repository.go:76-90 | parsing the text `String()` prints gives back the same UUID |
| `Uuid.ToString` | backend/internal/student/repository/repository.go:86 | `String()` prints 36 characters, dashes at 8, 13, 18 and 23 (the 8-4-4-4-12 layout), and no upper-case letter |
| `Uuid.ToStringInjective` | backend/internal/student/repository/repository.go:84-90 | two UUIDs print the same text exactly when they are equal |
| `Uuid.ToStringOfParse` | backend/internal/student/repository/repository.go:76-90 | a text that parses prints back as itself in lower case |
| `Repository.ModelToEntity` | backend/internal/student/repository/repository.go:76-82 | the row keeps the name and surname, and its UUID prints as the student's id in lower case; the id must parse, since `MustParse` panics otherwise |
| `Repository.EntityToModel` | backend/internal/student/repository/repository.go:84-90 | the student keeps the name and surname, its id is lower-case text that parses, and storing it gives back exactly the row |
| `Repository.EntityRoundTrip` | backend/internal/student/repository/repository.go:76-90 | `ModelToEntity(EntityToModel(e)) == e` for every row, and the printed id always parses |
| `Repository.ModelRoundTrip` | backend/internal/student/repository/repository.go:76-90 | `EntityToModel(ModelToEntity(s)) == s` when `s.id` is the canonical text of a UUID |
| `Repository.ModelRoundTripIff` | backend/internal/student/repository/repository.go:76-90 | storing and reading back changes only the case of the id, so it is exact if and only if the id is lower case |
| `Repository.Window` | backend/internal/student/repository/repository.go:32-33 | never more rows than the table, nor more than a non-negative limit; for a non-negative offset and limit it holds `min(limit, max(0, rows - offset))` rows; for a non-negative offset row `i` of it is table row `offset + i` |
| `Repository.Offset` | backend/internal/student/repository/repository.go:32 | a page from 1 on, with a size from 1 on, starts at a non-negative row `(page - 1) * pageSize` (computed without 64-bit wrap-around) |
| `Repository.ToModels` | backend/internal/student/repository/repository.go:39-43 | one student per row, in row order, and each student's id is lower-case text that parses, and the student stores back as exactly its row |
| `Repository.GetAll` | backend/internal/student/repository/repository.go:30-46 | a failed `Find` is returned as the error; otherwise, for a page and page size from 1 on, page `page` holds at most `pageSize` students, and student `i` is table row `(page-1)*pageSize + i` converted |
| `Repository.Get` | backend/internal/student/repository/repository.go:57-65 | when the `First` query does not fail, succeeds exactly when a row has the id, and returns that row converted (its id is the UUID's text); an absent id gives `RecordNotFound` and no student |
| `Repository.TotalStudentCount` | backend/internal/student/repository/repository.go:92-100 | the count is the number of rows, unless the count query fails |
| `Repository.Add` | backend/internal/student/repository/repository.go:67-74 | when the `Create` query does not fail, succeeds exactly when the id is not yet stored and appends exactly that row; a failure changes nothing, and a stored id gives `DuplicateKey` |
| `Repository.Delete` | backend/internal/student/repository/repository.go:48-55 | removes every row with the id and keeps all others; deleting an absent non-zero id succeeds and changes nothing; the zero UUID gives `MissingWhereClause`; a failure changes nothing |
| `Repository.WithoutConcat` | backend/internal/student/repository/repository.go:48-55 | the rows a delete keeps stay in their original order |
| `Repository.AddPreservesUniqueIds` | backend/internal/student/models/model.go:11-15 | an insert keeps the primary keys distinct |
| `Repository.DeletePreservesUniqueIds` | backend/internal/student/repository/repository.go:48-55 | a delete keeps the primary keys distinct |
| `Repository.AddThenGet` | backend/internal/student/repository/repository.go:57-74 | after a successful insert, reading its id returns the inserted student |
| `Repository.AddIncrementsCount` | backend/internal/student/repository/repository.go:67-100 | a successful insert makes the count exactly one larger |
| `Repository.DeleteIdempotent` | backend/internal/student/repository/repository.go:48-55 | for every table and id, deleting a second time gives the same table and error as deleting once |
| `Repository.DeleteThenGet` | backend/internal/student/repository/repository.go:48-65 | after a successful delete, reading the id gives `RecordNotFound` |
| `Repository.PageContents` | backend/internal/student/repository/repository.go:30-46 | page `n` is the converted rows from `(n-1)*size` up to `n*size`, cut at the end of the table |
| `Repository.ChunksArePrefix` | backend/internal/student/repository/repository.go:32-33 | the first `n` windows of `size` rows, one after the other, are the first `n*size` rows |
| `Repository.PagesCover` | backend/internal/student/repository/repository.go:30-46 | once `n*size` reaches the row count, pages 1 to `n` together list every row exactly once, in table order |
| `Repository.AddThenFirstPage` | backend/internal/student/repository/repository.go:30-74 | when the table fits on one page, page 1 after a successful insert is the earlier students followed by the new one |
| `Service.PageCount` | backend/internal/student/services/service.go:72 | `(total + size - 1) / size` is the ceiling of `total / size`: `pages*size >= total`, `(pages-1)*size < total`, and `pages == 0` if and only if `total == 0` |
| `Service.CeilingIsUnique` | backend/internal/student/services/service.go:72 | only one page count meets the ceiling condition |
| `Service.Get` | backend/internal/student/services/service.go:26-33 | makes exactly one repository `Get`; returns its student and no error, or its error and no student |
| `Service.Delete` | backend/internal/student/services/service.go:35-42 | makes exactly one repository `Delete` and returns its effect and error unchanged |
| `Service.Add` | backend/internal/student/services/service.go:44-56 | an empty name or surname gives the "name and surname are required" error with no repository call, and the student and table are unchanged; otherwise the student gets the new UUID's text as its id before one repository `Add`, whose error is returned unchanged |
| `Service.GetAll` | backend/internal/student/services/service.go:58-87 | a page or page size below 1 gives the zero response and an error with no repository call; a failing page or count query gives the zero response with that error; a valid request whose two queries do not fail always succeeds; on success the students are exactly the repository's page, number and size echo the request, elements is the row count, and pages is its ceiling over the size |
| `Service.ServicePagesAreRepositoryPages` | backend/internal/student/services/service.go:58-87 | when neither the page query nor the count query fails, listing pages 1 to `n` through the service gives the same students as reading them from the repository |
| `Service.ListingCoversStore` | backend/internal/student/services/service.go:58-87 | when neither the page query nor the count query fails, reading pages 1 up to the announced page count lists every stored student exactly once, in table order; any later page is empty, with the page offset computed without 64-bit wrap-around |
| `Service.AddThenGet` | backend/internal/student/services/service.go:26-56 | a valid student added under a new UUID is then read back by that UUID exactly as `Add` returned it |
| `Service.AddThenList` | backend/internal/student/services/service.go:44-87 | after adding under a new UUID to a table with fewer than `size` rows, page 1 lists the earlier students and then the new one, which appears once; the descriptor is page 1 of 1 with one more element |
| `Service.DeleteIsIdempotent` | backend/internal/student/services/service.go:35-42 | for every table and id, a second delete gives the same reply (table, error, calls) as the first, so it succeeds whenever the first did |
| `Service.GetMissingIsNotFound` | backend/internal/student/services/service.go:26-33 | reading an absent id gives `RecordNotFound`, no student, and one repository call |
| `Service.DeleteAbsentSucceeds` | backend/internal/student/services/service.go:35-42 | deleting an absent non-zero id succeeds and leaves the table unchanged |
| `Service.ServiceKeepsIdsUnique` | backend/internal/student/services/service.go:44-56 | adding and deleting through the service keep every primary key distinct |

## Left out

- HTTP handling: `controllers/controller.go` (request parsing, JSON binding, status codes) and `routes/route.go` are not part of this model. The controller's defaults of page 1 and size 10 belong to the caller. A non-numeric query value becomes 0 there, and the service then refuses it.
- Process startup and the connection: `cmd/main.go`, `GetDB` and its DSN, `NewStudentRepository`. The database is the `Database` value passed to each operation.
- SQL generation, `AutoMigrate` and `TableName`. The table is an abstract sequence of rows.
- Row order: the page query has no `ORDER BY`, so MySQL does not fix the order. The model uses table (insertion) order.
- Non-positive offset and limit: `Repository.Window` follows gorm's clause rule, where the offset applies only when positive and the limit only when not negative. The service never sends such values.
- UUID generation: `uuid.New()` is random. It is the caller-supplied `newId`, and nothing proves that it is new; the lemmas that need a new id require it.
- `Uuid.Parse`: models only the 36-character form. The `urn:uuid:` prefix, the braced form and the 32-digit form that the uuid library also accepts are not modelled, because the library is not part of this model. The version and variant bits are not checked, as in the library's `Parse`.
- `Repository.ModelToEntity`: the panic of `uuid.MustParse` on a bad id is a precondition (`ValidId`), not a modelled crash.
- Integer width: the `int64` arithmetic and the `int64` to `int` conversions at service.go:72-78 use unbounded integers. The overflow of `total + pageSize - 1` is not modelled.
- Repository.Offset: `(page - 1) * pageSize` at repository.go:32 is Go's 64-bit `int` product and wraps for a huge page number; the model computes it without wrap-around. A wrapped offset can be negative, and gorm then drops the offset, so Go returns the first rows where the model returns an empty page.
- Service.ListingCoversStore: its clause "any later page is empty" holds only while `(page - 1) * size` fits in a 64-bit `int`, because of the wrap-around named in the line above.
- Concurrency: the page query and the count query read the same table value. The model does not cover concurrent writers changing the table between the two queries.
- Go's nil slice and the empty slice are both the empty sequence. The zero response's `Students` is nil in Go, and the model does not tell the two apart.
- Pointers: `Service.Add` mutates the caller's `Student` in Go. Here the updated student is the reply's `value`.
- The generated mocks (`mocks/*.go`) and the React front end.
