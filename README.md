# StudentService and ImageImpl in Dafny

This project models the core of a Jersey/Spring JDBC student-record web
service. Two Java classes are covered:

- `StudentService` is a singleton JAX-RS resource. Its handlers validate
  form and path parameters with `StudentValidator`, call the
  `StudentJDBCTemplate` they find in the servlet context, catch every
  exception, and pick an HTTP response. The static helper `imageBytes` turns
  an uploaded stream into a byte array.
- `ImageImpl` is a mutable holder of an image id and a reference to a byte
  array.

## Layout

- `bytes.dfy` (`Bytes`): `byte`, an octet read unsigned (0..255).
- `wrappers.dfy` (`Wrappers`): `Option`. `None` stands for Java `null`
  wherever a reference may be null.
- `utf8.dfy` (`Utf8`): the charset `String.getBytes()` is assumed to use.
  It holds:
  - the UTF-8 encoder of section 3 of RFC 3629;
  - `Latin1`, the `(char) b` widening;
  - a decoder for UTF-8 whose characters are all below U+0100.

  The lemmas give the length of widen-then-encode, show that ASCII passes
  through unchanged, give the two-byte bit pattern of a byte at or above
  0x80, and prove that the round can be decoded back.
- `streams.dfy` (`Streams`): a `java.io.InputStream` as an object
  (`ByteStream`). It holds its bytes and, optionally, the number of
  successful reads after which `read()` raises. It also counts the reads
  made so far and knows whether it was closed. A `null` stream is a `null`
  reference: through `BufferedInputStream` its first read fails, and closing
  it does nothing.
- `records.dfy` (`Records`): the `Student` row, the call log entries, and
  the responses (status plus entity). `Validator` is a bundle of
  uninterpreted checks standing for `StudentValidator`'s static methods,
  together with `Integer.valueOf` and `String.valueOf`.
- `store.dfy` (`Store`): `StudentJdbcTemplate`, an in-memory stand-in for
  the store object. It has rows keyed by id, ids in creation order, the next
  id to assign, an `online` flag, and a log of every call made on it. Its
  SQL is not part of this model. The behaviour it is given:
  - every call is logged first;
  - when offline, every call raises;
  - a lookup of a missing id or name raises, like a single-row query;
  - `update` and `executeBatchUpdate` rewrite name, age and email of rows
    that already exist, keep their image, and skip unknown ids;
  - `getImage` hands out a fresh `ImageImpl` holding the stored bytes.
- `images.dfy` (`Images`): class `ImageImpl`, plus two client methods. They
  show that the getters return what the constructor and setters stored,
  down to sharing the same array.
- `service.dfy` (`Service`): class `StudentService`. Its fields are
  `student`, `list` and `studentTemplate`. The servlet-context attribute it
  reads from is the constant `context`, and `validator` stands for the
  static validator. The class also holds `imageBytes` as a static method
  with its loop, and the handlers as methods. Each handler states exactly
  which store calls it makes (the new entries of `context.log`), what the
  rows become, which fields change, and the response it returns. The
  response choice itself (`LookupResponse`, `ImageResponse`) is a pair of
  pure functions.
- `scenarios.dfy` (`Scenarios`): properties that need several requests to
  the same singleton. These are a stale `list`, a created student found by
  id, and upload followed by download of an image.

Behaviour kept as the code has it, although a reader might expect otherwise:
- `batchUpdate` submits the whole batch, invalid elements included. It only
  logs each element whose validation fails.
- `imageBytes` widens each byte to a `char` and re-encodes the string. Under
  UTF-8, every byte at or above 0x80 therefore becomes two bytes.
  `Utf8.HighByte` and `Utf8.Latin1EncodedLength` state this.
  `Utf8.HighByteChanges` and `Scenarios.ImageUploadThenDownload` state the
  consequence: such an image comes back different.
- The handlers report validation failures, store failures and the
  empty-image upload as 200 OK (`createStudent`, `updateStudent`,
  `deleteStudent`, `setStudentImage`, `batchUpdate`). Or they report them as
  404 (`getStudent` and `getStudentByName`), or as no response at all
  (`getStudentImage`). None of them returns a distinct error outcome.
- `createStudent` and `updateStudent` fill a local `student`, which shadows
  the field. Only `getStudent` and `getStudentByName` touch the field.
- The three handlers that take a stream treat it differently.
  `setStudentImage` drains and closes it before it validates the id.
  `createStudent` reads it only after validation passes. `updateStudent`
  never reads it.

## Model

| member | source | states |
|---|---|---|
| `Service.StudentService.ImageBytes` | src/main/java/com/school/service/StudentService.java:376-395 | The result is the widen-then-encode of exactly the bytes the stream still delivers before end of stream or its first failing read. A failure after k reads leaves the first k of them. The result is `null` exactly when no byte was read (empty, `null`, closed or immediately failing stream). Otherwise its length is the input length plus the number of bytes at or above 0x80, all-ASCII input comes back unchanged, other input comes back different, and the result decodes back to the bytes read. A non-null stream ends closed, with its read count advanced by the number of bytes read. |
| `Streams.ReadAt` | src/main/java/com/school/service/StudentService.java:381-385 | The read made after a number of successful reads yields a byte exactly while that number is inside the delivered prefix, and then it is the prefix's next byte. Otherwise it yields end of stream (-1) or an exception. |
| `Streams.Consumed` | src/main/java/com/school/service/StudentService.java:381-385 | The bytes a stream delivers from its start: a prefix of its data, all of it unless a read fails first, and as many bytes as succeed before the failing read. |
| `Streams.ByteStream.Read` | src/main/java/com/school/service/StudentService.java:381-384 | One `read()`: on an open stream, the result `ReadAt` gives for the current read count, which advances by one exactly when a byte is returned. On a closed stream, an exception. |
| `Streams.ByteStream.Close` | src/main/java/com/school/service/StudentService.java:379-386 | `close()` at the end of the try-with-resources block: the stream is closed and delivers nothing more. |
| `Service.StudentService.ReadChars` | src/main/java/com/school/service/StudentService.java:381-385 | The read loop: the characters appended are exactly the widened bytes the stream still delivers, and the read count advances by their number. |
| `Service.EncodedImageProperties` | src/main/java/com/school/service/StudentService.java:390-394 | The image is `null` exactly when no byte was read. Otherwise it is one byte longer per byte at or above 0x80, equals the bytes read when all are ASCII, differs from them otherwise, and decodes back to them. |
| `Utf8.Latin1` | src/main/java/com/school/service/StudentService.java:383 | `(char) content`: one character per byte, with the byte's code point. |
| `Utf8.EncodeChar` | src/main/java/com/school/service/StudentService.java:390 | `getBytes()` under UTF-8: a character takes 1 to 4 bytes. It takes exactly 1 below U+0080 and exactly 2 from U+0080 to U+07FF. |
| `Utf8.Latin1EncodedLength` | src/main/java/com/school/service/StudentService.java:381-390 | Encoding the widened bytes yields the input length plus one byte per input byte at or above 0x80. |
| `Utf8.AsciiUnchanged` | src/main/java/com/school/service/StudentService.java:381-390 | Bytes all below 0x80 come out of widen-then-encode unchanged. |
| `Utf8.HighByte` | src/main/java/com/school/service/StudentService.java:383-390 | A byte x at or above 0x80 becomes the two bytes `0xC0 \| (x >> 6)` and `0x80 \| (x & 0x3F)` (section 3 of RFC 3629). |
| `Utf8.HighByteChanges` | src/main/java/com/school/service/StudentService.java:381-390 | One byte at or above 0x80 suffices for the output to differ from the input. |
| `Utf8.DecodeLatin1RoundTrip` | src/main/java/com/school/service/StudentService.java:383-390 | The output of widen-then-encode decodes back to exactly the input bytes, so the change can be undone. |
| `Service.LookupResponse` | src/main/java/com/school/service/StudentService.java:125-129 | Status 200 with the record exactly when a record was found; 404 with no entity otherwise. |
| `Service.ImageResponse` | src/main/java/com/school/service/StudentService.java:252-257 | `null` bytes give 204, and non-empty bytes give 200 carrying those bytes. Only a non-null zero-length array gives no response. |
| `Service.StudentService.constructor` | src/main/java/com/school/service/StudentService.java:49-55 | The singleton starts with `student`, `list` and `studentTemplate` all null. |
| `Service.StudentService.CreateStudent` | src/main/java/com/school/service/StudentService.java:72-99 | The store is called only when `validateStudent(name, age, email)` passes. It is called once, with `create` of a record built from name, parsed age, email and the image read from the stream. The rows then gain that record under the next id when the store is online, and stay as they were when it is offline. When validation fails, neither the store nor the stream is touched. The stream is drained and closed only after validation passes. The response is always 200. |
| `Service.StudentService.GetStudent` | src/main/java/com/school/service/StudentService.java:112-130 | `student` is reset first. `getById` is called once, and only when `validateId` passes. `student` ends up holding the stored row exactly when validation passed and the store returned one. The response is 200 with that record, else 404. |
| `Service.StudentService.GetStudentByName` | src/main/java/com/school/service/StudentService.java:143-159 | The same as `GetStudent`, gated by `validatePathName` and calling `getByName`. The record carries the requested name. |
| `Service.StudentService.UpdateStudent` | src/main/java/com/school/service/StudentService.java:176-198 | `update` is called once, and only when the four-argument `validateStudent` passes. Its record has parsed id and age and no image. The stream is left untouched (not read, not closed). The rows change only through that update. The response is always 200. |
| `Service.StudentService.DeleteStudent` | src/main/java/com/school/service/StudentService.java:211-225 | `delete` of the parsed id is called once, and only when `validateId` passes. The response is always 200. |
| `Service.StudentService.GetStudentImage` | src/main/java/com/school/service/StudentService.java:238-266 | The image is fetched once, and only when `validateId` passes. The result is `null` when validation fails or the fetch raises. Otherwise it is the response `ImageResponse` picks for exactly the stored bytes. |
| `Service.StudentService.SetStudentImage` | src/main/java/com/school/service/StudentService.java:280-300 | The stream is drained and closed first, whatever the id. `setImage(id, bytes)` is then called exactly when `validateId` passes and the stream delivered at least one byte. It is called with the encoded bytes. An empty result leaves the store untouched. The response is always 200. |
| `Service.StudentService.GetAllStudents` | src/main/java/com/school/service/StudentService.java:313-324 | `getAllRecords` is always called. `list` takes its rows only when the call succeeds, and keeps its previous value otherwise. The returned value is `list`. |
| `Service.StudentService.BatchUpdate` | src/main/java/com/school/service/StudentService.java:338-367 | A null or empty batch makes no store call and leaves `studentTemplate` unassigned. Otherwise every element is validated, and the failing indices are exactly those reported. Then `executeBatchUpdate` is called once with the unfiltered batch. The response is always 200. |
| `Scenarios.StaleListAfterStoreFailure` | src/main/java/com/school/service/StudentService.java:313-323 | After a successful `getAllStudents`, a row is added through `createStudent` and the store starts failing. The next call returns the earlier list. |
| `Scenarios.CreateThenGet` | src/main/java/com/school/service/StudentService.java:72-130 | A student added through `createStudent` is then found by `getStudent` under the first id assigned, answering 200 with the submitted name and email and the parsed age. |
| `Scenarios.NoListBeforeFirstSuccess` | src/main/java/com/school/service/StudentService.java:313-323 | With no earlier successful call, a failing store makes `getAllStudents` return `null`. |
| `Scenarios.ImageUploadThenDownload` | src/main/java/com/school/service/StudentService.java:282-290 | Uploading non-empty bytes to an existing record and downloading them gives 200 with their UTF-8 re-encoding. That is the bytes themselves when all are ASCII, and different bytes when one is at or above 0x80. |
| `Scenarios.EmptyUploadThenDownload` | src/main/java/com/school/service/StudentService.java:284-291 | An upload that delivers no byte stores nothing, so a record without an image still answers 204. |
| `Images.ImageImpl.constructor` | src/main/java/com/school/objects/ImageImpl.java:21-24 | Keeps the given id and the very array reference given. |
| `Images.ImageImpl.Default` | src/main/java/com/school/objects/ImageImpl.java:29-30 | Starts with id 0 and null bytes. |
| `Images.ImageImpl.SetImageId` | src/main/java/com/school/objects/ImageImpl.java:36-39 | Sets the id; the bytes reference is unchanged. |
| `Images.ImageImpl.SetImageBytes` | src/main/java/com/school/objects/ImageImpl.java:45-47 | Sets the bytes reference; the id is unchanged. |
| `Images.ImageImpl.GetImageId` | src/main/java/com/school/objects/ImageImpl.java:55-57 | Returns the stored id and changes nothing. |
| `Images.ImageImpl.GetImageBytes` | src/main/java/com/school/objects/ImageImpl.java:65-68 | Returns the stored array reference itself and changes nothing. |
| `Images.SharedBytesVisible` | src/main/java/com/school/objects/ImageImpl.java:21-24 | A write into the array after it was handed to the constructor is visible through `getImageBytes()`. |
| `Images.SettersIndependent` | src/main/java/com/school/objects/ImageImpl.java:36-47 | On default holders, after `setImageBytes` then `setImageId`, or the reverse order, both getters return what was set. |

## Left out

- Transport shell. The model has no JAX-RS/Jersey annotations or routing, no
  injected `HttpServletRequest`/`HttpServletResponse`, and no
  `sendRedirect` after a `StudentException` in `createStudent`. It also
  leaves out writing the image to the response output stream in
  `getStudentImage`. A failure of `response.getOutputStream()` before the
  response is chosen is therefore not modelled. A failure in `bos.write`
  does not matter, because the response is already chosen by then.
- Servlet-context lookup. The looked-up `studentJDBCtemplate` attribute is
  the constant `context`, and each handler assigns it to `studentTemplate`.
  A missing (null) attribute is not modelled.
- `StudentJDBCTemplate` and its SQL are not part of this model. The
  in-memory `Store.StudentJdbcTemplate` semantics above are assumptions, and
  the handlers' contracts about the log hold whatever the store does.
- `StudentValidator` bodies are not part of this model. A validator that
  returns false and one that throws `StudentException` are merged into
  "does not pass". Every handler treats the two alike, apart from logging
  and the redirect.
- `Integer.valueOf`. Parsing is the uninterpreted `parseInt`, assumed to
  succeed on every string a validator passed. So the `NumberFormatException`
  path is not modelled.
- `ProxyImage` is not part of this model. Nor is its lazy loading or
  memoisation. Its `getProxyImage(id, template).getImageBytes()` is modelled
  as one `getImage(id)` store call that returns an `ImageImpl`.
- `OcupationFactory`/`Ocupation`. Records are built directly. A
  factory-made `Student` is assumed to start with id 0 and no image.
- Null Java strings (missing form parameters) are not distinguished from
  strings, since they only reach the abstract validators. `null` elements
  inside a batch are left out.
- The array `imageBytes` returns is modelled as a sequence value. It is
  freshly allocated and never written afterwards, so no aliasing is lost. A
  failing `close()` of the stream is left out too; its exception is caught
  and keeps what was read.
- Logging (log4j). The only logged facts kept are the indices of batch
  elements that do not pass validation, which `BatchUpdate` returns. The
  source logs only those whose validator throws; with the two outcomes
  merged, the returned indices also cover a validator that returns false.
- `BufferedInputStream` buffering. The read count of a stream is the number
  of bytes `imageBytes` takes through the buffer. How far the buffer reads
  ahead in the underlying stream is not modelled.
- Charset. `getBytes()` is fixed to UTF-8. Other platform default charsets
  are not modelled.
- Concurrency. Races between requests on the shared fields `student`,
  `list` and `studentTemplate` are left out.
- Java's 32-bit `int`. Ids and ages are unbounded integers, because the core
  does no arithmetic on them.
