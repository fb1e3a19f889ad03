# Image-to-PDF converter backend, modelled in Dafny

The backend is a small Flask service with one real endpoint, `POST /convert`.
The client uploads image files in the multipart field `files`. The service
checks every file name against the allowed extensions `.jpg`, `.jpeg` and
`.png`, ignoring case. It decodes each accepted upload with Pillow and
re-encodes it as an RGB JPEG in the `uploads` directory. It then merges those
JPEGs, in upload order, into a single PDF returned as an attachment. Provided
every upload and every JPEG is written to disk without error, every
temporary file is removed again on every way out: success, a 400 for a bad
request, a 500 for a failed conversion. At start-up the app reads
`ALLOWED_ORIGINS`, a comma-separated list. CORS is restricted to those origins
when the list is non-empty, and any origin is allowed otherwise.

`backend/app.py` has no page-layout logic. It hands the decoded images
straight to Pillow's PDF writer and sets no limit on the number of files.

Modules:

- `Wrappers` (wrappers.dfy): `Option`.
- `Text` (text.dfy): the Python string operations the code relies on, with
  their laws. These are `str.lower`, `str.endswith`, `str.isspace` /
  `str.strip` (the whitespace set is written out), and `str.split` on a single
  character with its inverse `join`.
- `Uploads` (uploads.dfy): `ALLOWED_EXTENSIONS` and `allowed_filename`, with an
  independent "text after the last dot" description of the extension.
- `Origins` (origins.dfy): `_get_allowed_origins`, which takes the raw
  environment value as a parameter, and create_app's choice between the two
  CORS set-ups.
- `Storage` (storage.dfy): the upload directory as a class. `files` maps path
  to content, and `nextId` is the source of fresh names that stands in for
  `uuid4().hex`. It has `exists`, `save` and `remove`.
- `Conversion` (conversion.dfy): `read_image_to_temp`, `cleanup` and the
  `convert` handler are imperative methods over an `UploadDir`. `create_pdf`,
  which only reads files, is a pure function (`CreatePdf`, with `OpenImages`)
  over the directory's `map<Path, Content>`. Beside them sits a pure
  description of the handler's answer (`ConvertOutcome`, built on
  `ScanUploads`) together with the lemmas about it.

Pixels and PDF bytes are not modelled. A file's content is either
`Image(picture)` or `NotAnImage`, which is content Pillow refuses to open. A
document is its sequence of pages. Whether Pillow's PDF writer fails is a
boolean parameter, `writerFails`.

## Model

| member | source | states |
|---|---|---|
| Uploads.AllowedExtensionsShape | backend/app.py:11 | ALLOWED_EXTENSIONS has three members, each a dot followed by at least three dot-free characters |
| Uploads.AllowedFilename | backend/app.py:19-21 | allowed_filename: the lower-cased name ends with one of the allowed extensions (its meaning is proved in AllowedIffFinalExtension) |
| Uploads.FinalExtension | backend/app.py:19-21 | the text after the last dot, None exactly when the name has no dot; it is a dot-free suffix preceded by a dot |
| Uploads.FinalExtensionAt | backend/app.py:19-21 | a dot followed by n dot-free final characters makes those characters the final extension |
| Uploads.EndsWithDotFreeTail | backend/app.py:20-21 | if the lower-cased name ends with "." + x (x dot-free), the name has its last dot just before its last len(x) characters, and those lower-case to x |
| Uploads.ExtensionEndsWith | backend/app.py:20-21 | a final extension that lower-cases to x makes the lower-cased name end with "." + x |
| Uploads.EndsWithExtension | backend/app.py:20-21 | for dot-free x: the lower-cased name ends with "." + x iff the final extension lower-cases to x |
| Uploads.AllowedIffFinalExtension | backend/app.py:11-21 | a name is accepted iff it has a dot and the text after its last dot is jpg, jpeg or png in any case; both directions |
| Uploads.AllowedCaseInsensitive | backend/app.py:20 | a name and its lower-cased form are accepted alike |
| Uploads.AcceptedExamples | backend/app.py:11-21 | "PHOTO.JPG", "a.PnG" and ".jpeg" are accepted |
| Uploads.RejectedExamples | backend/app.py:11-21 | "x.png.txt", "jpg" and "" are rejected |
| Text.LowerCharDot | backend/app.py:20 | lower-casing maps a dot, and nothing else, to a dot |
| Text.IsSpace | backend/app.py:25-28 | the characters str.strip() removes: Python's str.isspace set, written out |
| Text.Lower | backend/app.py:20 | lower-casing keeps the length |
| Text.LowerIdempotent | backend/app.py:20 | lower-casing twice is lower-casing once |
| Text.LowerSuffix | backend/app.py:20 | lower-casing commutes with taking a suffix |
| Text.EndsWith | backend/app.py:21 | str.endswith: the suffix is no longer than the string and equals its tail |
| Text.SpaceBefore | backend/app.py:25 | the length of the leading whitespace run: all whitespace before it, a non-space character at it |
| Text.SpaceAfter | backend/app.py:25 | the start of the trailing whitespace run: all whitespace from it on, a non-space character just before it |
| Text.Strip | backend/app.py:25 | str.strip(): a contiguous slice that holds every non-space character, with no whitespace at either end; empty iff the input is all whitespace |
| Text.StripNoEdgeSpace | backend/app.py:25 | stripping a string without edge whitespace changes nothing |
| Text.Split | backend/app.py:28 | split(","): at least one piece, no piece contains the separator |
| Text.SplitCount | backend/app.py:28 | split gives one piece more than there are separators |
| Text.JoinSplit | backend/app.py:28 | joining the pieces with the separator gives back the string |
| Text.SplitJoin | backend/app.py:28 | splitting a join of at least one separator-free piece gives back the pieces |
| Text.JoinCons | backend/app.py:28 | joining a new first piece puts it and a separator before the rest |
| Text.JoinExtendFirst | backend/app.py:28 | a character before a join extends its first piece |
| Text.SplitCons | backend/app.py:28 | split of a non-separator character followed by text extends the first piece |
| Text.SplitSeparatorFreePrefix | backend/app.py:28 | a separator-free prefix followed by a separator becomes the first piece |
| Text.JoinContainsPieces | backend/app.py:28 | every character of a piece occurs in the join |
| Text.SplitPieceChar | backend/app.py:28 | every character of a piece of a split occurs in the string and is not the separator |
| Text.JoinCharFromPiece | backend/app.py:28 | every non-separator character of a join comes from some piece |
| Text.JoinFirst | backend/app.py:28 | a join starts with its first piece's first character |
| Text.JoinLast | backend/app.py:28 | a join ends with its last piece's last character |
| Origins.StripKeepsOut | backend/app.py:28 | stripping introduces no character |
| Origins.Kept | backend/app.py:28 | one entry, the piece's strip, when the strip is non-empty; none when the piece is blank |
| Origins.FlatMapAppend | backend/app.py:28 | the comprehension distributes over concatenation |
| Origins.FlatMapLength | backend/app.py:28 | with at most one output per element, no more outputs than elements |
| Origins.FlatMapOrigin | backend/app.py:28 | every output comes from some input element |
| Origins.StrippedNonBlank | backend/app.py:28 | the comprehension over the pieces: at most one entry per piece |
| Origins.StrippedNonBlankAppend | backend/app.py:28 | the comprehension keeps the order of the pieces |
| Origins.StrippedNonBlankEntries | backend/app.py:28 | at most one entry per piece, each the non-empty strip of some piece |
| Origins.StrippedNonBlankEmpty | backend/app.py:28 | nothing survives iff every piece is blank |
| Origins.StrippedNonBlankCommaFree | backend/app.py:28 | comma-free pieces give comma-free entries |
| Origins.GetAllowedOrigins | backend/app.py:24-28 | None iff the value is blank; every entry is non-empty, comma-free and without edge whitespace |
| Origins.StripCount | backend/app.py:25 | a strip holds no more copies of a character than its input |
| Origins.AllowedOriginsCount | backend/app.py:25-28 | no more entries than commas plus one |
| Origins.StrippedNonBlankWellFormed | backend/app.py:28 | well-formed origins survive the comprehension unchanged |
| Origins.AllowedOriginsRoundTrip | backend/app.py:24-28 | joining well-formed origins with commas and parsing gives them back; the empty list gives None |
| Origins.StripCharAt | backend/app.py:25 | the m-th character of the strip is the raw string's character just past the leading whitespace plus m |
| Origins.ContentSurvives | backend/app.py:28 | a character other than whitespace and commas makes some entry survive the comma split |
| Origins.ContentGivesOrigin | backend/app.py:24-28 | a character other than whitespace and commas makes the list non-empty |
| Origins.PieceContent | backend/app.py:28 | a non-space character of a piece is a non-space, non-comma character of the string |
| Origins.SurvivorHasContent | backend/app.py:28 | an entry survives only if the string holds a character other than whitespace and commas |
| Origins.OriginGivesContent | backend/app.py:24-28 | a non-empty list implies such a character in the raw value |
| Origins.AllowedOriginsNonEmptyIff | backend/app.py:24-28 | the list is present and non-empty iff the raw value holds a character other than whitespace and commas |
| Origins.OnlyCommasGiveEmptyList | backend/app.py:26-28 | a value of commas and whitespace gives the empty list, not None |
| Origins.ChooseCorsPolicy | backend/app.py:82-85 | `if allowed:`: restrict exactly when the list is present and non-empty, and then to that very list |
| Origins.CorsPolicyFor | backend/app.py:81-85 | CORS is restricted iff ALLOWED_ORIGINS holds a character other than whitespace and commas, and then to exactly the parsed list, which is non-empty and well-formed; otherwise the parse gave None or [] and any origin is allowed |
| Conversion.ScanUploads | backend/app.py:108-113 | the loop over the files: all accepted with one picture per file, or stopped at a position inside the list |
| Conversion.ConvertOutcome | backend/app.py:96-125 | the handler's answer: "No files provided" iff the key is missing, "Empty file list" iff the list is empty, and a PDF only when the writer succeeds, with one page per file |
| Conversion.TempCount | backend/app.py:105-113 | len(temp_paths) when the handler leaves the loop: one per file converted before it stopped |
| Conversion.StatusCode | backend/app.py:98-125 | 200 for the PDF from send_file, 400 for the three bad-request answers, 500 for a failed conversion |
| Conversion.ScanUnsupportedIff | backend/app.py:108-110 | the loop stops with "Unsupported file" at i iff i is a file with a refused name and every earlier file was converted |
| Conversion.ScanUndecodableIff | backend/app.py:108-113 | the loop stops at an undecodable file at i iff its name is accepted and every earlier file was converted |
| Conversion.ScanAcceptedIff | backend/app.py:108-113 | the loop gets through iff every file is convertible, and then keeps one picture per file, in order |
| Conversion.ConvertSucceedsIff | backend/app.py:96-122 | the PDF is sent iff the files key is present, the list is non-empty, every file is convertible and the writer succeeds; its pages are the files' pictures, in upload order |
| Conversion.ConvertRejectsFirstUnsupported | backend/app.py:108-110 | the 400 names file i iff i is the first file the loop did not get past and its name is refused |
| Conversion.ScanStopsAt | backend/app.py:108-113 | the loop stops at the first file it cannot convert: "Unsupported file" for a refused name, otherwise the decoding failure |
| Conversion.ConvertStatusCodes | backend/app.py:98-125 | 400 iff the key is missing, the list is empty or the loop reaches a refused name; 500 iff the loop reaches an undecodable file or every file converts and the PDF writer fails |
| Conversion.ReadImageToTemp | backend/app.py:31-49 | an undecodable upload leaves the directory unchanged (the raw file is removed); a decodable one adds exactly one fresh JPEG holding its picture |
| Conversion.Cleanup | backend/app.py:52-55 | removes exactly the listed paths that exist, nothing else |
| Conversion.OpenImages | backend/app.py:62 | every path opens iff each exists and is an image; the pictures are in path order |
| Conversion.CreatePdf | backend/app.py:58-72 | a document iff there is at least one path, all open and the writer succeeds; one page per path, in order |
| Conversion.TrackedStep | backend/app.py:112-113 | appending a fresh JPEG for the next upload keeps the loop's bookkeeping |
| Conversion.TrackedCleanup | backend/app.py:127-128 | removing the recorded temporaries restores the directory as it was before the loop |
| Conversion.TrackedPdf | backend/app.py:115-125 | after a complete loop, create_pdf on the temporaries gives the answer ConvertOutcome describes |
| Conversion.ReadUploads | backend/app.py:105-113 | the loop over the files: it stops exactly where ScanUploads stops, answering "Unsupported file" for a refused name and a conversion failure for an undecodable file; each file it gets past leaves one fresh JPEG holding that file's content, recorded in temp_paths in upload order with increasing ids, and the directory is the old one plus exactly those files |
| Conversion.Convert | backend/app.py:96-128 | the answer is ConvertOutcome (400 / 500 / PDF); the temporaries are those ReadUploads records, one per file passed, fresh and distinct; after cleanup the upload directory is exactly as it started |
| Storage.UploadDir.constructor | backend/app.py:10 | an upload directory with the given files and fresh-name counter |
| Storage.UploadDir.FreshPath | backend/app.py:35 | a name no existing file has |
| Storage.UploadDir.Exists | backend/app.py:48-55 | os.path.exists: the path is one of the directory's files |
| Storage.UploadDir.Save | backend/app.py:36 | the file now holds the given content, others unchanged |
| Storage.UploadDir.Remove | backend/app.py:48-49 | the file is gone, others unchanged |

## Left out

- Flask itself is not modelled: routing, `/health`, the OPTIONS route, `jsonify`, `send_file`, the
  attachment name and the MIME type. Responses are the `Response` datatype, with `StatusCode` giving 200, 400 or 500.
- flask_cors is not modelled. The model stops at which CORS set-up create_app picks (`CorsPolicy`);
  `supports_credentials=True` is common to both set-ups and is not represented.
- Environment reads are parameters: `ALLOWED_ORIGINS` is the `raw` string, and a missing variable is
  the empty string, as with `os.environ.get(..., "")`. The `PORT` parse and `app.run` in `__main__`
  (backend/app.py:135-137) are not modelled.
- `ensure_dirs` (backend/app.py:15-16) is not modelled: the upload directory is assumed to exist.
- Pillow is opaque. EXIF transposition, RGB conversion and JPEG encoding at quality 95 are folded into
  `Content`: decodable content re-encodes to the same `Picture`. PDF bytes are not modelled (a `Document` is its page list),
  and a failure of the PDF writer is the `writerFails` parameter.
- `uuid4().hex` names are fresh ids from a counter. The model assumes names never collide, which a
  random uuid makes overwhelmingly likely but does not guarantee.
- Conversion.ReadImageToTemp: does not model a failure of `FileStorage.save` or of the JPEG write,
  because the disk is not modelled. Only undecodable content makes it fail. In the source such a
  failure can leave a file behind. `file_storage.save` (backend/app.py:36) runs before the `try`, so
  a save that fails after creating the file leaves the raw upload in place. A JPEG write (:44) that
  fails part-way leaves a file that never reaches `temp_paths`. Either way the request ends in the 500 at
  :124-125. Conversion.Convert's "the directory ends as it started" therefore holds only for runs in
  which every save succeeds.
- Concurrent requests are not modelled. `app.run` serves requests on threads that share `UPLOAD_DIR`.
  The guarantee of Conversion.Convert that the directory ends as it started covers this request's own files
  while no other request changes the directory.
- Exception messages in the 500 body (`Failed to convert images: ...`) are not modelled; only the status and kind are kept.
- Open file handles: create_pdf never closes the images it opens. Handles are not modelled.
- Text.Lower: lower-cases ASCII A-Z only, not all of Unicode as `str.lower` does. No non-ASCII
  character lower-cases to a dot or to a letter of "jpg", "jpeg" or "png", so which names are accepted
  is unaffected, but `Lower` is not `str.lower` on other text.
- Text.Split: splits on a single character only, which is all `raw.split(",")` needs.
