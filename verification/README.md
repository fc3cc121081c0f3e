# Upload server: a Dafny model of its request logic

The server is a small Express application with one route, `POST /upload`.
The route checks a static bearer token. It then lets multer accept up to one
image per field (`image1`, `image2`, `image3`), filtered by a MIME whitelist.
Each accepted image is stored on disk under a generated, collision-resistant
name. The reply lists what was stored, and an error middleware turns every
failure into a JSON reply.

The model covers the logic inside that wiring, written as pure functions with
the callbacks (`cb`, `next`, `res.status().json()`) turned into returned
values:

- `PosixPath`: Node's POSIX `path.extname` and `path.basename(p, ext)`. The
  character scans are rewritten as the path pieces they find.
- `Decimal`: how a non-negative integer prints inside a template string.
- `Whitespace`: JavaScript's `\s` and `replace(/\s+/g, '_')`.
- `StorageNaming`: the disk-storage `filename` callback,
  `{base}-{timestamp}-{random}{ext}`, with the clock and the random draw as
  parameters.
- `MimeFilter`: the file filter over the five whitelisted types.
- `Auth`: the bearer-token middleware.
- `UploadResponse`: the success handler, which maps `image1..image3` to file
  descriptions or `null`.
- `ErrorHandler`: the error middleware.
- `UploadRoute`: the middleware chain of the route. Multer's outcome is an
  input, and the configured limits are recorded as constants.
- `Http`, `Wrappers`: the shared datatypes (files, thrown values, replies,
  `Option`).

The random part of the name is `Math.round(Math.random() * 1e9)`, so it can
be any integer from 0 to 10^9, both ends included. No lemma depends on this
bound.

## Model

| member | source | states |
|---|---|---|
| PosixPath.ExtName | src/index.ts:29 | `extname` is empty or a `.` followed by no other `.` and no `/`, and it is shorter than the path. |
| PosixPath.ExtNameCharacterised | src/index.ts:29 | `extname` is empty exactly when the last segment has no `.` after its first character, or is `..`. Otherwise it is a proper tail of that segment that starts with `.`, contains no other `.`, and contains no `/`. |
| PosixPath.ExtNameWithoutInnerDot | src/index.ts:29 | A last segment with no `.` after its first character has no extension. |
| PosixPath.ExtNameCornerCases | src/index.ts:29 | `extname("a.")` is `"."`; `extname(".b")` and `extname("..")` are `""`. |
| PosixPath.BaseName | src/index.ts:30 | `basename` is no longer than the path; with no suffix it is the last segment; it keeps a `/` only in Node's corner cases for a non-empty suffix (a path of slashes only, or a segment that is a tail of the suffix followed by trailing slashes), and then it ends with `/`. |
| PosixPath.BaseNameCutsSuffix | src/index.ts:30 | A suffix that is a proper tail of the last segment is cut off by `basename`, and the base plus the suffix give back the segment. |
| PosixPath.BaseNameWithExtName | src/index.ts:29-30 | `basename(p, extname(p)) + extname(p)` is the last segment of `p`. |
| Decimal.NatToString | src/index.ts:31 | An integer prints as a non-empty string of digits with no leading zero. |
| Decimal.StringToNatOfNatToString | src/index.ts:31 | Reading the printed digits back gives the number. |
| Decimal.NatToStringInjective | src/index.ts:31 | Distinct numbers print differently. |
| Whitespace.IsWhitespace | src/index.ts:30 | `\s` is exactly ECMAScript's WhiteSpace and LineTerminator code points: TAB, LF, VT, FF, CR, SP, NBSP, U+1680, U+2000 to U+200A, U+2028, U+2029, U+202F, U+205F, U+3000 and U+FEFF. |
| Whitespace.ReplaceWhitespaceRuns | src/index.ts:30 | The result of `replace(/\s+/g, '_')` has no whitespace, is no longer than its input, and is empty only for empty input. |
| Whitespace.ReplaceKeepsText | src/index.ts:30 | Text without whitespace is unchanged. |
| Whitespace.ReplaceRun | src/index.ts:30 | A non-empty run of whitespace becomes exactly one `_`. |
| Whitespace.ReplaceAppend | src/index.ts:30 | Replacement distributes over concatenation when the cut does not split a whitespace run. With the two rows above, this means every maximal run becomes one `_` and all other characters stay, in order. |
| Whitespace.ReplaceIdempotent | src/index.ts:30 | Replacing twice gives the same result as replacing once. |
| Whitespace.ReplaceAddsOnlyUnderscores | src/index.ts:30 | The only character the replacement adds is `_`. |
| StorageNaming.SanitisedBase | src/index.ts:30 | The sanitised base contains no whitespace and no `/`. |
| StorageNaming.UniqueSuffix | src/index.ts:31 | `{timestamp}-{random}` has at least three characters, each a digit or `-`, and neither starts nor ends with `-`. |
| StorageNaming.StorageName | src/index.ts:28-32 | The generated name ends with `extname(originalname)` and is at least four characters longer than it. |
| StorageNaming.StorageNameLayout | src/index.ts:29-32 | The generated name starts with the sanitised base and `-`, ends with `extname(originalname)`, and is longer than those two parts together. |
| StorageNaming.StorageNameStaysInUploadDir | src/index.ts:28-32 | The generated name contains no `/`, whatever directories the client's file name names. |
| StorageNaming.UniqueSuffixInjective | src/index.ts:31 | The timestamp and the random draw can be recovered from `{timestamp}-{random}`. |
| StorageNaming.StorageNameInjective | src/index.ts:25-32 | For a fixed original name, distinct (timestamp, random) pairs give distinct storage names. |
| StorageNaming.StorageNameKeepsExtension | src/index.ts:29-32 | `extname` of the stored name equals `extname` of the original name, unless the original's last segment is `..`. |
| StorageNaming.DotDotGainsExtension | src/index.ts:29-32 | Shows that the `..` exception is needed: `..` has no extension, but its stored name `..-7-42` has the extension `.-7-42`. |
| StorageNaming.StorageNameExample | src/index.ts:28-33 | `"a b.png"` stored at time 7 with random draw 42 is named `"a_b-7-42.png"`. |
| MimeFilter.Includes | src/index.ts:19 | `includes` finds `x` exactly when `x` is an element of the list. |
| MimeFilter.FileFilter | src/index.ts:16-23 | A file is accepted exactly when its MIME type is one of `image/png`, `image/jpeg`, `image/jpg`, `image/gif`, `image/webp`. Any other type is rejected with `Error("Unsupported file type")`. |
| MimeFilter.FilterLooksOnlyAtMimeType | src/index.ts:18-22 | Two files with the same MIME type get the same decision. |
| Auth.AuthMiddleware | src/index.ts:43-49 | `next` is called exactly when the header is present and equals `Bearer YOUR_SECRET_TOKEN`. Otherwise the reply is 401 `{error: "Unauthorized"}`. |
| UploadResponse.FirstFile | src/index.ts:62 | `files?.[field]?.[0]` is present exactly when multer stored at least one file under `field`, and it is the first such file. |
| UploadResponse.Describe | src/index.ts:62-72 | A file description copies `originalname`, `filename`, `mimetype` and `size`, reports the field name, and gives the stored `path` as `savedPath`. |
| UploadResponse.Entry | src/index.ts:62-72 | A field's entry is `null` exactly when multer stored no file under it; otherwise it names that field and gives the first file's `path` as `savedPath`. |
| UploadResponse.Entries | src/index.ts:61-73 | `map` over the field list keeps its length and order. Entry i is computed from field i. |
| UploadResponse.UploadHandler | src/index.ts:75-79 | A successful reply has status 200, `message` "uploaded", three file entries, and `fields` equal to the request body; when `req.body` is undefined the `fields` key is absent. Without `req.files` every entry is `null`. |
| UploadResponse.ResponseFilesDescribeFirstFiles | src/index.ts:61-73 | Entry i belongs to field `image1`, `image2` or `image3`, in that order. It is `null` exactly when no file was stored for that field. Otherwise it copies `originalname`, `filename`, `mimetype`, `size` and `path` (as `savedPath`) from the field's first file. |
| UploadResponse.UnlistedFieldsNotReported | src/index.ts:61-79 | A file stored under any other field never appears in the reply: no entry is labelled with that field, and removing that field's files leaves the reply unchanged. |
| ErrorHandler.HandleError | src/index.ts:83-91 | A MulterError gives 400 `{error: code, message}`. Any other Error gives 400 `{error: name, message}`. Anything else gives 500 `{error: "UnknownError"}`. The MulterError test comes first. |
| ErrorHandler.ErrorRepliesAreWellFormed | src/index.ts:83-91 | Every error reply has status 400 or 500, and it has a `message` exactly when the status is 400, that is, exactly when an Error was thrown. |
| UploadRoute.PostUpload | src/index.ts:58-91 | The route answers 401 exactly when the credential is not the expected one; a 200 reply comes only from a parsed request and echoes its body. |
| UploadRoute.UnauthorizedStopsAtGate | src/index.ts:58 | Without the exact credential the reply is 401 Unauthorized, whatever multer would have done. |
| UploadRoute.PostUploadStatus | src/index.ts:58 | The status is 200 exactly for an authorised, parsed request and 401 exactly for an unauthorised one. It is 400 exactly when multer passed an Error, and 500 exactly when multer passed a value that is not an Error. |
| UploadRoute.RejectedTypeReply | src/index.ts:87-88 | A file rejected by the filter makes an authorised request fail with 400 `{error: "Error", message: "Unsupported file type"}`. |
| UploadRoute.MulterErrorReply | src/index.ts:84-85 | A multer error reaches the client as 400 with its own code and message. |
| UploadRoute.ReportedFieldsAreUploadFields | src/index.ts:52-61 | The response lists exactly the fields multer is configured for, in the same order. |
| UploadRoute.ReportedNameEndsWithExtension | src/index.ts:28-73 | When the disk storage named a reported file, its reported `filename` ends with the extension of its `originalname`. |

## Left out

- Building the Express app, registering routes, and `app.listen` with the `PORT` variable: framework and network wiring.
- Creating the upload directory and the `destination` callback: filesystem I/O. The disk write done by multer's disk storage is also left out.
- Multipart parsing, the `maxCount: 1` per field, the 5 MiB `fileSize` limit, and multer's treatment of parts under other field names: these happen inside multer, whose code is not part of this model. `UploadRoute.PostUpload` takes multer's result (stored files and body, or the error it passed on) as an input. The limits are recorded as the constants `FileSizeLimit` and `UploadFields`.
- `Date.now()` and `Math.round(Math.random() * 1e9)`: clock and floating-point randomness, taken as natural-number parameters. Numbers at or above 10^21, which JavaScript prints in exponent form, are not modelled.
- Strings are sequences of Unicode scalar values, not JavaScript's UTF-16 code units. Every character of `\s` lies in the Basic Multilingual Plane, so the whitespace replacement is unaffected.
- Windows path semantics: only `path.posix` is modelled.
- `PosixPath.BaseName` follows Node's corner cases for suffixes that are not the path's own extension. Its stated property covers only the call `basename(p, extname(p))` made by the server.
- `req.headers['authorization']` is modelled as a string or absent. Node's headers object never gives an array for this header.
- A MulterError whose `code` is undefined, where JSON would drop the key: every MulterError is taken to carry a code.
- Interleaving of concurrent requests, and what happens to files already written when a later part of the same request fails: concurrency and I/O.
