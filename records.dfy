/**
 * The values the service handles: the `Student` record, the abstract
 * `StudentValidator`, the calls made on the store, and the JAX-RS responses.
 */
module Records {
  import opened Wrappers
  import opened Bytes

  /** A student row: `id`, `name`, `age`, `email` and the optional image bytes. */
  datatype Student = Student(id: int, name: string, age: int, email: string, image: Option<seq<byte>>)

  /**
   * `StudentValidator`, whose bodies are not part of this model, as
   * uninterpreted checks: each is true when the validator passes and false
   * when it returns false or raises a `StudentException`. `parseInt` is
   * `Integer.valueOf` (assumed to succeed on any string a validator passed)
   * and `show` is `String.valueOf(int)`.
   */
  datatype Validator = Validator(
    validateStudent: (string, string, string) -> bool,
    validateStudentWithId: (string, string, string, string) -> bool,
    validateId: string -> bool,
    validatePathName: string -> bool,
    parseInt: string -> int,
    show: int -> string)

  /** One call made on the `StudentJDBCTemplate`, with its arguments. */
  datatype StoreCall =
    | CreateCall(student: Student)
    | GetByIdCall(id: int)
    | GetByNameCall(name: string)
    | UpdateCall(student: Student)
    | DeleteCall(id: int)
    | GetImageCall(id: int)
    | SetImageCall(id: int, bytes: seq<byte>)
    | GetAllRecordsCall
    | ExecuteBatchUpdateCall(students: seq<Student>)

  /** The HTTP status a handler chooses. */
  datatype Status = Ok | NotFound | NoContent

  /** The entity a response carries. */
  datatype Entity = NoEntity | Record(student: Student) | Octets(bytes: seq<byte>)

  datatype Response = Response(status: Status, entity: Entity)

  const OK := Response(Ok, NoEntity)
}
