/**
 * The `POST /upload` route: the bearer-token gate, then multer (its parsing,
 * limits and disk writes are outside this model, so its outcome is an
 * input), then either the upload handler or the error handler.
 */
module UploadRoute {
  import opened Wrappers
  import opened Http
  import opened Auth
  import opened MimeFilter
  import opened UploadResponse
  import opened ErrorHandler
  import opened PosixPath
  import opened StorageNaming

  /** multer's `limits.fileSize`: 5 MiB. */
  const FileSizeLimit: nat := 5 * 1024 * 1024

  /** One entry of `upload.fields([...])`. */
  datatype FieldSpec = FieldSpec(name: string, maxCount: nat)

  /** The file fields multer accepts, at most one file each. */
  const UploadFields: seq<FieldSpec> := [FieldSpec("image1", 1), FieldSpec("image2", 1), FieldSpec("image3", 1)]

  /** What multer did with the request body: stored files and text fields, or the error it passed to `next`. */
  datatype MulterOutcome = Parsed(files: Files, body: Option<FormFields>) | Failed(err: Thrown)

  /** `app.post('/upload', authMiddleware, uploadFields, handler)` followed by the error handler. */
  function PostUpload(authorization: Option<string>, multer: MulterOutcome): (reply: Reply)
    ensures reply.status == 401 <==> authorization != Some("Bearer YOUR_SECRET_TOKEN")
    ensures reply.status == 200 ==> multer.Parsed? && reply.body.UploadedBody? && reply.body.fields == multer.body
  {
    match AuthMiddleware(authorization)
    case Respond(r) => r
    case Next =>
      match multer
      case Parsed(files, body) => UploadHandler(files, body)
      case Failed(err) => HandleError(err)
  }

  /**
   * Without exactly the expected credential the reply is 401 Unauthorized,
   * whatever multer would have made of the body: the gate runs first.
   */
  lemma UnauthorizedStopsAtGate(authorization: Option<string>, multer: MulterOutcome)
    requires authorization != Some("Bearer YOUR_SECRET_TOKEN")
    ensures PostUpload(authorization, multer) == Reply(401, ErrorBody("Unauthorized", None))
  {
  }

  /**
   * The statuses the route can answer with, and when: 200 exactly for an
   * authorised request that multer parsed, 401 exactly for an unauthorised one,
   * 400 for an Error from multer and 500 for anything else it throws.
   */
  lemma PostUploadStatus(authorization: Option<string>, multer: MulterOutcome)
    ensures var status, authorised := PostUpload(authorization, multer).status, authorization == Some("Bearer YOUR_SECRET_TOKEN");
      && (status == 200 <==> authorised && multer.Parsed?)
      && (status == 401 <==> !authorised)
      && (status == 400 <==> authorised && multer.Failed? && InstanceOfError(multer.err))
      && (status == 500 <==> authorised && multer.Failed? && !InstanceOfError(multer.err))
  {
  }

  /**
   * A file whose declared type the filter rejects makes an authorised request
   * fail with 400 and `{error: "Error", message: "Unsupported file type"}`.
   */
  lemma RejectedTypeReply(file: IncomingFile)
    requires file.mimetype !in AllowedMime
    ensures FileFilter(file).Reject?
    ensures PostUpload(Some("Bearer YOUR_SECRET_TOKEN"), Failed(FileFilter(file).err))
         == Reply(400, ErrorBody("Error", Some("Unsupported file type")))
  {
  }

  /** A multer limit error (a file too large, one file too many) reaches the client as 400 with its code. */
  lemma MulterErrorReply(code: string, message: string)
    ensures PostUpload(Some("Bearer YOUR_SECRET_TOKEN"), Failed(MulterError(code, message)))
         == Reply(400, ErrorBody(code, Some(message)))
  {
  }

  /** The response reports exactly the fields multer is configured to accept, in the same order. */
  lemma ReportedFieldsAreUploadFields()
    ensures |ResponseFields| == |UploadFields|
    ensures forall i :: 0 <= i < |UploadFields| ==> ResponseFields[i] == UploadFields[i].name
  {
  }

  /**
   * When the disk storage named the first file of a reported field, the
   * response's `filename` for it ends with the extension of its `originalname`.
   */
  lemma ReportedNameEndsWithExtension(files: Files, body: Option<FormFields>, i: nat, now: nat, random: nat)
    requires i < 3
    requires var field := ResponseFields[i];
      files.Some? && field in files.value && files.value[field] != []
      && files.value[field][0].filename == StorageName(files.value[field][0].originalname, now, random)
    ensures var entry := PostUpload(Some("Bearer YOUR_SECRET_TOKEN"), Parsed(files, body)).body.files[i];
      && entry.Some?
      && var ext := ExtName(entry.value.originalname);
      |ext| <= |entry.value.filename| && entry.value.filename[|entry.value.filename| - |ext|..] == ext
  {
  }
}
