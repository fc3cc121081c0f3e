/** The file filter: only the whitelisted image types may be uploaded. */
module MimeFilter {
  import opened Http

  /** `ALLOWED_MIME` */
  const AllowedMime: seq<string> := ["image/png", "image/jpeg", "image/jpg", "image/gif", "image/webp"]

  /** The Error the filter rejects a file with: `new Error('Unsupported file type')`. */
  const UnsupportedFileType: Thrown := PlainError("Error", "Unsupported file type")

  /** `xs.includes(x)`: a scan of the list for an equal string. */
  function Includes(xs: seq<string>, x: string): (found: bool)
    ensures found <==> x in xs
  {
    if xs == [] then false else xs[0] == x || Includes(xs[1..], x)
  }

  /** The two ways the filter calls back: `cb(null, true)` and `cb(err)`. */
  datatype Verdict = Accept | Reject(err: Thrown)

  /** `fileFilter`: accept a whitelisted MIME type, reject anything else. */
  function FileFilter(file: IncomingFile): (v: Verdict)
    ensures v.Accept? <==> file.mimetype in {"image/png", "image/jpeg", "image/jpg", "image/gif", "image/webp"}
    ensures v.Reject? ==> v.err == PlainError("Error", "Unsupported file type")
  {
    if !Includes(AllowedMime, file.mimetype) then Reject(UnsupportedFileType) else Accept
  }

  /**
   * The decision depends on the declared MIME type alone: neither the file
   * name, nor the field, nor the encoding changes it.
   */
  lemma FilterLooksOnlyAtMimeType(f: IncomingFile, g: IncomingFile)
    requires f.mimetype == g.mimetype
    ensures FileFilter(f) == FileFilter(g)
  {
  }
}
