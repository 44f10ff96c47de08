/**
 * Behaviour that only shows across several requests to one `StudentService`
 * singleton. Each scenario starts from a fresh in-memory store, which the
 * requests of that scenario then share.
 */
module Scenarios {
  import opened Wrappers
  import opened Bytes
  import opened Utf8
  import opened Streams
  import opened Records
  import opened Store
  import opened Service

  /**
   * `getAllStudents` keeps the list of its last successful call: after the
   * store starts failing, the old list comes back, even though a row was
   * created in the meantime.
   */
  method StaleListAfterStoreFailure(validator: Validator, name: string, age: string, email: string)
    returns (first: Option<seq<Student>>, second: Option<seq<Student>>, stored: nat)
    requires validator.validateStudent(name, age, email)
    ensures first == Some([]) && second == first && stored == 1
  {
    var store := new StudentJdbcTemplate();
    var service := new StudentService(store, validator);
    first := service.GetAllStudents();
    var created := service.CreateStudent(name, age, email, null);
    store.SetOnline(false);
    second := service.GetAllStudents();
    stored := |store.records|;
  }

  /** Before any successful `getAllStudents`, a failing store gives `null`. */
  method NoListBeforeFirstSuccess(validator: Validator) returns (r: Option<seq<Student>>)
    ensures r == None
  {
    var store := new StudentJdbcTemplate();
    store.SetOnline(false);
    var service := new StudentService(store, validator);
    r := service.GetAllStudents();
  }

  /**
   * A student created through `createStudent` (without an image) is found by
   * `getStudent` under the first id the store assigns, with the submitted
   * name and email and the parsed age.
   */
  method CreateThenGet(validator: Validator, name: string, age: string, email: string, id: string) returns (r: Response)
    requires validator.validateStudent(name, age, email)
    requires validator.validateId(id) && validator.parseInt(id) == 1
    ensures r == Response(Ok, Record(Student(1, name, validator.parseInt(age), email, None)))
  {
    var store := new StudentJdbcTemplate();
    var service := new StudentService(store, validator);
    var created := service.CreateStudent(name, age, email, null);
    r := service.GetStudent(id);
  }

  /**
   * Storing an image through `setStudentImage` and reading it back through
   * `getStudentImage` gives 200 with the UTF-8 re-encoding of the uploaded
   * bytes: the uploaded bytes themselves when all are below 0x80, a longer
   * array as soon as one is not.
   */
  method ImageUploadThenDownload(validator: Validator, id: string, s: Student, data: seq<byte>) returns (r: Option<Response>)
    requires validator.validateId(id) && validator.parseInt(id) == 1 && data != []
    ensures r == Some(Response(Ok, Octets(Encode(Latin1(data)))))
    ensures (forall i :: 0 <= i < |data| ==> data[i] < 0x80) ==> r == Some(Response(Ok, Octets(data)))
    ensures (exists i :: 0 <= i < |data| && data[i] >= 0x80) ==> r != Some(Response(Ok, Octets(data)))
  {
    var store := new StudentJdbcTemplate();
    var created := store.Create(s);
    var service := new StudentService(store, validator);
    var stream := new ByteStream(Source(data, None));
    assert PendingOf(stream) == data;
    EncodeEmptyIff(Latin1(data));
    var stored := service.SetStudentImage(id, stream);
    r := service.GetStudentImage(id);
    EncodedImageProperties(data);
  }

  /**
   * An upload whose stream delivers nothing (missing, empty, or failing on
   * the first read) leaves the record without an image, so the download
   * answers 204.
   */
  method EmptyUploadThenDownload(validator: Validator, id: string, s: Student, source: Option<Source>) returns (r: Option<Response>)
    requires validator.validateId(id) && validator.parseInt(id) == 1
    requires source.Some? ==> Consumed(source.value) == []
    requires s.image.None?
    ensures r == Some(Response(NoContent, NoEntity))
  {
    var store := new StudentJdbcTemplate();
    var created := store.Create(s);
    var service := new StudentService(store, validator);
    var stream: ByteStream? := null;
    if source.Some? {
      stream := new ByteStream(source.value);
    }
    var stored := service.SetStudentImage(id, stream);
    r := service.GetStudentImage(id);
  }
}
