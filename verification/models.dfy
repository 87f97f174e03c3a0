/** The records the service and the repository exchange, and the errors they report. */
module Models {
  import Uuid

  /** A student as the service and its callers see it; the id is the UUID's text. */
  datatype Student = Student(id: string, name: string, surname: string)

  /** A row of the `students` table; `id` is its primary key. */
  datatype StudentEntity = StudentEntity(id: Uuid.UUID, name: string, surname: string)

  /** Where a listing sits: 1-based page number, page size, total students, total pages. */
  datatype Page = Page(number: int, size: int, elements: int, pages: int)

  /** One page of students and its page descriptor. */
  datatype PaginationResponse = PaginationResponse(students: seq<Student>, page: Page)

  /** Go's zero-valued `PaginationResponse`: no students and every page field 0. */
  const EmptyResponse := PaginationResponse([], Page(0, 0, 0, 0))

  /** The failures the service and the repository report. */
  datatype Error =
    | Invalid(message: string)   // a request the service refuses before touching the store
    | RecordNotFound             // a point read that matched no row
    | DuplicateKey               // an insert whose id is already a primary key in the table
    | MissingWhereClause         // a delete whose primary key is the zero value, so it has no condition
    | Storage(message: string)   // any other failure the database reports

  const NameRequired := "name and surname are required"
  const PageTooLow := "page and pagesize cannot be lower than 1"
}
