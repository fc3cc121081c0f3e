/** The `/upload` handler that runs once authentication and multer have succeeded. */
module UploadResponse {
  import opened Wrappers
  import opened Http

  /** The fields reported in the response, in this order. */
  const ResponseFields: seq<string> := ["image1", "image2", "image3"]

  /** `req.files`: per field, the files multer stored; absent when multer set none. */
  type Files = Option<map<string, seq<StoredFile>>>

  /** `files?.[field]?.[0]` */
  function FirstFile(files: Files, field: string): (f: Option<StoredFile>)
    ensures f.Some? <==> files.Some? && field in files.value && files.value[field] != []
    ensures f.Some? ==> f.value == files.value[field][0]
  {
    match files
    case None => None
    case Some(m) => if field in m && m[field] != [] then Some(m[field][0]) else None
  }

  /** The object literal built for a stored file. */
  function Describe(field: string, file: StoredFile): (info: FileInfo)
    ensures info.field == field && info.savedPath == file.path
    ensures info.originalname == file.originalname && info.filename == file.filename
    ensures info.mimetype == file.mimetype && info.size == file.size
  {
    FileInfo(field, file.originalname, file.filename, file.mimetype, file.size, file.path)
  }

  /** The callback given to `map`: the file's description, or `null`. */
  function Entry(files: Files, field: string): (entry: Option<FileInfo>)
    ensures entry.None? <==> files.None? || field !in files.value || files.value[field] == []
    ensures entry.Some? ==> entry.value.field == field && entry.value.savedPath == files.value[field][0].path
  {
    match FirstFile(files, field)
    case None => None
    case Some(file) => Some(Describe(field, file))
  }

  /** `fields.map(field => Entry(files, field))` */
  function Entries(files: Files, fields: seq<string>): (r: seq<Option<FileInfo>>)
    ensures |r| == |fields|
    ensures forall i :: 0 <= i < |fields| ==> r[i] == Entry(files, fields[i])
  {
    if fields == [] then [] else [Entry(files, fields[0])] + Entries(files, fields[1..])
  }

  /**
   * `res.json({ message: 'uploaded', files: responseFiles, fields: req.body })`.
   * Without `req.files` every entry is `null`; `fields` is `req.body` as it is,
   * absent included.
   */
  function UploadHandler(files: Files, body: Option<FormFields>): (reply: Reply)
    ensures reply.status == 200 && reply.body.UploadedBody?
    ensures reply.body.message == "uploaded"
    ensures reply.body.fields == body
    ensures files.None? ==> forall e :: e in reply.body.files ==> e.None?
    ensures |reply.body.files| == 3
  {
    Reply(200, UploadedBody("uploaded", Entries(files, ResponseFields), body))
  }

  /**
   * Entry i of the response belongs to field image1, image2 or image3 in
   * that order; it is `null` exactly when multer stored no file for that
   * field, and otherwise describes the first file stored for it.
   */
  lemma ResponseFilesDescribeFirstFiles(files: Files, body: Option<FormFields>, i: nat)
    requires i < 3
    ensures var entry, field := UploadHandler(files, body).body.files[i], ["image1", "image2", "image3"][i];
      && (entry.None? <==> files.None? || field !in files.value || files.value[field] == [])
      && (entry.Some? ==>
            var file := files.value[field][0];
            entry.value == FileInfo(field, file.originalname, file.filename, file.mimetype, file.size, file.path))
  {
  }

  /**
   * Files stored under a field the response does not list never show up in
   * it: no entry is labelled with that field, and removing those files
   * leaves the reply exactly as it was.
   */
  lemma UnlistedFieldsNotReported(files: Files, body: Option<FormFields>, field: string)
    requires field !in ResponseFields
    requires files.Some? && field in files.value
    ensures forall e :: e in UploadHandler(files, body).body.files && e.Some? ==> e.value.field != field
    ensures UploadHandler(files, body) == UploadHandler(Some(files.value - {field}), body)
  {
    var pruned := Some(files.value - {field});
    forall g | g in ResponseFields
      ensures Entry(files, g) == Entry(pruned, g)
    {
      assert g != field;
      if g in files.value {
        assert files.value[g] == pruned.value[g];
      }
    }
    assert Entries(files, ResponseFields) == Entries(pruned, ResponseFields);
  }
}
