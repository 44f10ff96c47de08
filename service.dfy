/**
 * `StudentService`: the singleton JAX-RS resource. Each handler validates its
 * input with the `StudentValidator`, calls the `StudentJDBCTemplate` found in
 * the servlet context, swallows every exception, and picks a response.
 */
module Service {
  import opened Wrappers
  import opened Bytes
  import opened Utf8
  import opened Streams
  import opened Records
  import opened Store
  import Images

  /**
   * What `imageBytes` returns for the bytes it read: those bytes widened to
   * characters and encoded by `getBytes()` (UTF-8), or `null` when that
   * encoding is empty.
   */
  function EncodedImage(read: seq<byte>): Option<seq<byte>>
  {
    var bytes := Encode(Latin1(read));
    if |bytes| < 1 then None else Some(bytes)
  }

  /**
   * The image is `null` exactly when nothing was read; otherwise it has one
   * extra byte per byte at or above 0x80, equals the bytes read when they
   * are all ASCII and differs from them otherwise, and decodes back to the
   * bytes read.
   */
  lemma EncodedImageProperties(read: seq<byte>)
    ensures EncodedImage(read).None? <==> read == []
    ensures EncodedImage(read).Some? ==> |EncodedImage(read).value| == |read| + HighCount(read)
    ensures (forall i :: 0 <= i < |read| ==> read[i] < 0x80) ==>
      EncodedImage(read) == if read == [] then None else Some(read)
    ensures EncodedImage(read).Some? ==> DecodeLatin1(EncodedImage(read).value) == Some(read)
    ensures (exists i :: 0 <= i < |read| && read[i] >= 0x80) ==> EncodedImage(read) != Some(read)
  {
    EncodeEmptyIff(Latin1(read));
    Latin1EncodedLength(read);
    DecodeLatin1RoundTrip(read);
    if forall i :: 0 <= i < |read| ==> read[i] < 0x80 {
      AsciiUnchanged(read);
    }
    if i :| 0 <= i < |read| && read[i] >= 0x80 {
      HighByteChanges(read, i);
    }
  }

  /** The record `createStudent` submits: default id 0, parsed age, the image made of the bytes read. */
  function NewStudent(v: Validator, name: string, age: string, email: string, read: seq<byte>): Student
  {
    Student(0, name, v.parseInt(age), email, EncodedImage(read))
  }

  /** The record `updateStudent` submits: its image is never set. */
  function ChangedStudent(v: Validator, id: string, name: string, age: string, email: string): Student
  {
    Student(v.parseInt(id), name, v.parseInt(age), email, None)
  }

  /** The check `batchUpdate` applies to one element, on its fields turned back into strings. */
  predicate BatchElementValid(v: Validator, s: Student)
  {
    v.validateStudentWithId(v.show(s.id), s.name, v.show(s.age), s.email)
  }

  /** Response of `getStudent` and `getStudentByName`: 200 with the record when there is one, else 404. */
  function LookupResponse(student: Option<Student>): (r: Response)
    ensures r.status == Ok <==> student.Some?
    ensures r.status == Ok ==> r.entity == Record(student.value)
    ensures r.status != Ok ==> r == Response(NotFound, NoEntity)
  {
    match student
    case Some(s) => Response(Ok, Record(s))
    case None => Response(NotFound, NoEntity)
  }

  /**
   * Response of `getStudentImage` once the image bytes were read: 204 for
   * `null` bytes, 200 carrying the bytes when there are some, and no
   * response at all (`null`) for a zero-length array.
   */
  function ImageResponse(bytes: Option<seq<byte>>): (r: Option<Response>)
    ensures r.None? <==> bytes == Some([])
    ensures bytes.None? ==> r == Some(Response(NoContent, NoEntity))
    ensures r.Some? && r.value.status == Ok ==> bytes.Some? && r.value.entity == Octets(bytes.value) && |bytes.value| > 0
    ensures bytes.Some? && |bytes.value| > 0 ==> r.Some? && r.value.status == Ok
  {
    if bytes.None? then Some(Response(NoContent, NoEntity))
    else if |bytes.value| > 0 then Some(Response(Ok, Octets(bytes.value)))
    else None
  }

  class StudentService {
    var student: Option<Student>
    var list: Option<seq<Student>>
    var studentTemplate: StudentJdbcTemplate?
    /** The template stored in the servlet context under "studentJDBCtemplate". */
    const context: StudentJdbcTemplate
    /** `StudentValidator`'s static checks. */
    const validator: Validator

    ghost predicate Valid()
      reads this, context
    {
      context.Valid() && (studentTemplate == null || studentTemplate == context)
    }

    constructor (context: StudentJdbcTemplate, validator: Validator)
      requires context.Valid()
      ensures Valid() && this.context == context && this.validator == validator
      ensures student == None && list == None && studentTemplate == null
    {
      this.context := context;
      this.validator := validator;
      student, list, studentTemplate := None, None, null;
    }

    /**
     * `imageBytes`: reads the stream byte by byte into a character buffer
     * until end of stream or the first failing read, closes it, re-encodes
     * the buffer with `getBytes()`, and gives `null` instead of an empty
     * array.
     */
    static method ImageBytes(inputStream: ByteStream?) returns (encoded: Option<seq<byte>>)
      modifies inputStream
      ensures encoded == EncodedImage(old(PendingOf(inputStream)))
      ensures encoded.None? <==> old(PendingOf(inputStream)) == []
      ensures encoded.Some? ==>
        |encoded.value| == |old(PendingOf(inputStream))| + HighCount(old(PendingOf(inputStream)))
      ensures (forall i :: 0 <= i < |old(PendingOf(inputStream))| ==> old(PendingOf(inputStream))[i] < 0x80) ==>
        encoded == if old(PendingOf(inputStream)) == [] then None else Some(old(PendingOf(inputStream)))
      ensures encoded.Some? ==> DecodeLatin1(encoded.value) == Some(old(PendingOf(inputStream)))
      ensures inputStream != null ==>
        inputStream.closed && inputStream.position == old(inputStream.position) + |old(PendingOf(inputStream))|
    {
      ghost var consumed := PendingOf(inputStream);
      var img: seq<char> := [];
      if inputStream != null {
        img := ReadChars(inputStream);
        inputStream.Close();
      }
      assert img == Latin1(consumed);
      var bytes := Encode(img);
      if |bytes| < 1 {
        encoded := None;
      } else {
        encoded := Some(bytes);
      }
      EncodedImageProperties(consumed);
    }

    /**
     * The read loop of `imageBytes`: appends `(char) content` for every byte
     * read until a read gives end of stream or fails.
     */
    static method ReadChars(inputStream: ByteStream) returns (img: seq<char>)
      modifies inputStream`position
      ensures img == Latin1(old(inputStream.Pending()))
      ensures inputStream.position == old(inputStream.position) + |old(inputStream.Pending())|
    {
      ghost var consumed := inputStream.Pending();
      ghost var c := Consumed(inputStream.source);
      ghost var start := inputStream.position;
      img := [];
      var content := inputStream.Read();
      while content.Byte?
        invariant inputStream.closed ==> img == [] && !content.Byte?
        invariant !inputStream.closed ==> content == ReadAt(inputStream.source, start + |img|)
        invariant inputStream.position == start + |img| + if content.Byte? then 1 else 0
        invariant img == [] || start + |img| <= |c|
        invariant forall i :: 0 <= i < |img| ==> img[i] as int == c[start + i] as int
        decreases |c| - start - |img|
      {
        img := img + [(content.value as int) as char];
        content := inputStream.Read();
      }
      assert |img| == |consumed|;
      assert forall i :: 0 <= i < |img| ==> consumed[i] == c[start + i];
      assert img == Latin1(consumed);
    }

    /**
     * `createStudent`: only when `validateStudent(name, age, email)` passes
     * does it read the stream and write the new record; otherwise neither the
     * store nor the stream is touched.
     */
    method CreateStudent(name: string, age: string, email: string, stream: ByteStream?) returns (r: Response)
      requires Valid()
      modifies this`studentTemplate, context`records, context`ids, context`nextId, context`log, stream
      ensures Valid() && studentTemplate == context && r == OK
      ensures context.log == old(context.log) +
        if validator.validateStudent(name, age, email)
        then [CreateCall(NewStudent(validator, name, age, email, old(PendingOf(stream))))] else []
      ensures validator.validateStudent(name, age, email) && context.online ==>
        old(context.nextId) !in old(context.records)
      ensures context.records ==
        var id := old(context.nextId);
        if validator.validateStudent(name, age, email) && context.online
        then old(context.records)[id := NewStudent(validator, name, age, email, old(PendingOf(stream))).(id := id)]
        else old(context.records)
      ensures !validator.validateStudent(name, age, email) ==> unchanged(context)
      ensures stream != null && validator.validateStudent(name, age, email) ==>
        stream.closed && stream.position == old(stream.position) + |old(PendingOf(stream))|
      ensures stream != null && !validator.validateStudent(name, age, email) ==> unchanged(stream)
    {
      studentTemplate := context;
      if validator.validateStudent(name, age, email) {
        var image := ImageBytes(stream);
        var s := Student(0, name, validator.parseInt(age), email, image);
        var reply := studentTemplate.Create(s);
      }
      r := OK;
    }

    /** `getStudent`: clears `student`, then looks the id up only when `validateId` passes. */
    method GetStudent(id: string) returns (r: Response)
      requires Valid()
      modifies this`student, this`studentTemplate, context`log
      ensures Valid() && studentTemplate == context
      ensures context.log == old(context.log) +
        if validator.validateId(id) then [GetByIdCall(validator.parseInt(id))] else []
      ensures student ==
        if validator.validateId(id) && context.online && validator.parseInt(id) in context.records
        then Some(context.records[validator.parseInt(id)]) else None
      ensures r == LookupResponse(student)
    {
      student := None;
      studentTemplate := context;
      if validator.validateId(id) {
        var reply := studentTemplate.GetById(validator.parseInt(id));
        if reply.Returned? {
          student := Some(reply.value);
        }
      }
      r := LookupResponse(student);
    }

    /** `getStudentByName`: clears `student`, then looks the name up only when `validatePathName` passes. */
    method GetStudentByName(name: string) returns (r: Response)
      requires Valid()
      modifies this`student, this`studentTemplate, context`log
      ensures Valid() && studentTemplate == context
      ensures context.log == old(context.log) +
        if validator.validatePathName(name) then [GetByNameCall(name)] else []
      ensures student.Some? <==>
        validator.validatePathName(name) && context.online
        && exists k :: k in context.records && context.records[k].name == name
      ensures student.Some? ==>
        student.value.name == name
        && student.value.id in context.records && context.records[student.value.id] == student.value
      ensures r == LookupResponse(student)
    {
      student := None;
      studentTemplate := context;
      if validator.validatePathName(name) {
        var reply := studentTemplate.GetByName(name);
        if reply.Returned? {
          student := Some(reply.value);
        }
      }
      r := LookupResponse(student);
    }

    /** `updateStudent`: writes only when `validateStudent(id, name, age, email)` passes; the stream is never read. */
    method UpdateStudent(id: string, name: string, age: string, email: string, stream: ByteStream?) returns (r: Response)
      requires Valid()
      modifies this`studentTemplate, context`records, context`log
      ensures Valid() && studentTemplate == context && r == OK
      ensures stream != null ==> unchanged(stream)
      ensures context.log == old(context.log) +
        if validator.validateStudentWithId(id, name, age, email)
        then [UpdateCall(ChangedStudent(validator, id, name, age, email))] else []
      ensures context.records ==
        var key := validator.parseInt(id);
        if validator.validateStudentWithId(id, name, age, email) && context.online && key in old(context.records)
        then old(context.records)[key := ChangedStudent(validator, id, name, age, email).(image := old(context.records)[key].image)]
        else old(context.records)
    {
      studentTemplate := context;
      if validator.validateStudentWithId(id, name, age, email) {
        var s := Student(validator.parseInt(id), name, validator.parseInt(age), email, None);
        var reply := studentTemplate.Update(s);
      }
      r := OK;
    }

    /** `deleteStudent`: deletes only when `validateId` passes. */
    method DeleteStudent(id: string) returns (r: Response)
      requires Valid()
      modifies this`studentTemplate, context`records, context`ids, context`log
      ensures Valid() && studentTemplate == context && r == OK
      ensures context.log == old(context.log) +
        if validator.validateId(id) then [DeleteCall(validator.parseInt(id))] else []
      ensures context.records ==
        if validator.validateId(id) && context.online
        then old(context.records) - {validator.parseInt(id)} else old(context.records)
    {
      studentTemplate := context;
      if validator.validateId(id) {
        var reply := studentTemplate.Delete(validator.parseInt(id));
      }
      r := OK;
    }

    /**
     * `getStudentImage`: no response (`null`) when validation fails or the
     * image lookup raises; otherwise the response `ImageResponse` picks for
     * the stored bytes.
     */
    method GetStudentImage(id: string) returns (r: Option<Response>)
      requires Valid()
      modifies this`studentTemplate, context`log
      ensures Valid() && studentTemplate == context
      ensures context.log == old(context.log) +
        if validator.validateId(id) then [GetImageCall(validator.parseInt(id))] else []
      ensures r ==
        if validator.validateId(id) && context.online && validator.parseInt(id) in context.records
        then ImageResponse(context.records[validator.parseInt(id)].image) else None
    {
      r := None;
      studentTemplate := context;
      if validator.validateId(id) {
        var reply := studentTemplate.GetImage(validator.parseInt(id));
        if reply.Returned? {
          var bytes := reply.value.GetImageBytes();
          r := ImageResponse(if bytes == null then None else Some(bytes[..]));
        }
      }
    }

    /**
     * `setStudentImage`: reads and closes the stream first, whatever the id,
     * then writes the bytes only when `validateId` passes and the stream gave
     * a non-empty array.
     */
    method SetStudentImage(id: string, stream: ByteStream?) returns (r: Response)
      requires Valid()
      modifies this`studentTemplate, context`records, context`log, stream
      ensures Valid() && studentTemplate == context && r == OK
      ensures stream != null ==> stream.closed && stream.position == old(stream.position) + |old(PendingOf(stream))|
      ensures context.log == old(context.log) +
        if validator.validateId(id) && old(PendingOf(stream)) != []
        then [SetImageCall(validator.parseInt(id), EncodedImage(old(PendingOf(stream))).value)] else []
      ensures context.records ==
        var key := validator.parseInt(id);
        if validator.validateId(id) && old(PendingOf(stream)) != [] && context.online && key in old(context.records)
        then old(context.records)[key := old(context.records)[key].(image := EncodedImage(old(PendingOf(stream))))]
        else old(context.records)
    {
      studentTemplate := context;
      var imageBytes := ImageBytes(stream);
      if validator.validateId(id) {
        if imageBytes.None? {
          // `imageBytes.length` on null: the NullPointerException is caught.
        } else if |imageBytes.value| > 0 {
          var reply := studentTemplate.SetImage(validator.parseInt(id), imageBytes.value);
        } else {
          // "No image found": the thrown NullPointerException is caught.
        }
      }
      r := OK;
    }

    /** `getAllStudents`: `list` takes the store's rows only when the call succeeds; the field is returned either way. */
    method GetAllStudents() returns (r: Option<seq<Student>>)
      requires Valid()
      modifies this`list, this`studentTemplate, context`log
      ensures Valid() && studentTemplate == context && r == list
      ensures context.log == old(context.log) + [GetAllRecordsCall]
      ensures list == if context.online then Some(context.Rows()) else old(list)
    {
      studentTemplate := context;
      var reply := studentTemplate.GetAllRecords();
      if reply.Returned? {
        list := Some(reply.value);
      }
      r := list;
    }

    /**
     * `batchUpdate`: a missing or empty batch stops before the store; any
     * other batch has each element validated (the indices of those that fail,
     * by returning false or by throwing and being logged, are returned in
     * `rejected`), and then the whole batch, as
     * given, submitted in one `executeBatchUpdate` call.
     */
    method BatchUpdate(batch: Option<seq<Student>>) returns (r: Response, rejected: seq<nat>)
      requires Valid()
      modifies this`studentTemplate, context`records, context`log
      ensures Valid() && r == OK
      ensures batch.None? || batch.value == [] ==> studentTemplate == old(studentTemplate) && unchanged(context) && rejected == []
      ensures batch.Some? && batch.value != [] ==>
        studentTemplate == context && context.log == old(context.log) + [ExecuteBatchUpdateCall(batch.value)]
        && context.records == if context.online then Overwritten(old(context.records), batch.value) else old(context.records)
      ensures batch.Some? ==> forall i :: 0 <= i < |batch.value| ==>
        (i in rejected <==> !BatchElementValid(validator, batch.value[i]))
      ensures batch.Some? ==> forall j :: 0 <= j < |rejected| ==> rejected[j] < |batch.value|
    {
      rejected := [];
      if batch.None? {
        // `batch.size()` on null: the NullPointerException is caught.
        return OK, rejected;
      }
      if |batch.value| == 0 {
        // "Batch update can not be empty": the IllegalArgumentException is caught.
        return OK, rejected;
      }
      studentTemplate := context;
      var students := batch.value;
      var i := 0;
      while i < |students|
        invariant 0 <= i <= |students|
        invariant forall k :: 0 <= k < i ==> (k in rejected <==> !BatchElementValid(validator, students[k]))
        invariant forall j :: 0 <= j < |rejected| ==> rejected[j] < i
      {
        if !BatchElementValid(validator, students[i]) {
          rejected := rejected + [i];
        }
        i := i + 1;
      }
      var reply := studentTemplate.ExecuteBatchUpdate(students);
      r := OK;
    }
  }
}
