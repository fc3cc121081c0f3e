/**
 * The values that cross the upload server's boundary: the file records
 * multer hands over, the values a handler may throw, and the replies
 * (status code and JSON body) that the server sends.
 */
module Http {
  import opened Wrappers

  /** What the file filter sees of an incoming part before it is stored. */
  datatype IncomingFile = IncomingFile(fieldname: string, originalname: string, encoding: string, mimetype: string)

  /** A file that multer's disk storage has written (an entry of `req.files[field]`). */
  datatype StoredFile = StoredFile(
    fieldname: string,
    originalname: string,
    mimetype: string,
    destination: string,
    filename: string,
    path: string,
    size: nat)

  /** One entry of the `files` array of a successful upload response. */
  datatype FileInfo = FileInfo(
    field: string,
    originalname: string,
    filename: string,
    mimetype: string,
    size: nat,
    savedPath: string)

  /**
   * A value that reaches the error handler. JavaScript can throw anything;
   * what the handler distinguishes is whether the value is a MulterError
   * (a subclass of Error carrying a `code`), another Error, or no Error at all.
   */
  datatype Thrown =
    | MulterError(code: string, message: string)
    | PlainError(name: string, message: string)
    | NonError

  /** `err instanceof MulterError` */
  predicate InstanceOfMulterError(err: Thrown)
  {
    err.MulterError?
  }

  /** `err instanceof Error`: every MulterError is an Error too. */
  predicate InstanceOfError(err: Thrown)
  {
    err.MulterError? || err.PlainError?
  }

  /** `err.name` of an Error; a MulterError is named "MulterError". */
  function ErrorName(err: Thrown): (name: string)
    requires InstanceOfError(err)
    ensures InstanceOfMulterError(err) ==> name == "MulterError"
    ensures err.PlainError? ==> name == err.name
  {
    match err
    case MulterError(_, _) => "MulterError"
    case PlainError(name, _) => name
  }

  /**
   * A text value of the multipart body as multer collects it in `req.body`:
   * a string, or, for repeated or bracketed field names, a list or a nested object.
   */
  datatype FormValue =
    | Text(text: string)
    | Items(items: seq<FormValue>)
    | Nested(entries: map<string, FormValue>)

  /** `req.body`: the request's text fields by name. */
  type FormFields = map<string, FormValue>

  /**
   * The JSON bodies the server sends: `{error, message?}` for failures and
   * `{message, files, fields}` for a successful upload, whose `fields` echo
   * the request's text fields. When `req.body` is undefined (a request that
   * is not multipart, which multer passes through untouched), `fields` is None
   * and JSON serialisation leaves the `fields` key out. The optional
   * `message` key of an error body is the field `errorMessage` here, since a
   * field name is shared by all constructors of a datatype.
   */
  datatype Body =
    | ErrorBody(error: string, errorMessage: Option<string>)
    | UploadedBody(message: string, files: seq<Option<FileInfo>>, fields: Option<FormFields>)

  /** `res.status(status).json(body)`; `res.json(body)` alone sends status 200. */
  datatype Reply = Reply(status: nat, body: Body)
}
