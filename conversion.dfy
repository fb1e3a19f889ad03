/**
 * The POST /convert handler: validation of the uploaded files, one temporary
 * JPEG per accepted file, the merged PDF built from them in input order, and
 * the removal of every temporary file on every way out.
 */
module Conversion {
  import opened Wrappers
  import opened Storage
  import Uploads

  /** One part of the multipart "files" field. */
  datatype Upload = Upload(filename: string, content: Content)

  /** request.files: None when there is no "files" key, else getlist("files"). */
  datatype Request = Request(files: Option<seq<Upload>>)

  /** The merged PDF: one page per picture, in order (the bytes Pillow writes are not modelled). */
  datatype Document = Document(pages: seq<Picture>)

  datatype RequestError = NoFilesProvided | EmptyFileList | UnsupportedFile(filename: string)

  /** The three kinds of response: the PDF attachment (200), a 400 with its error, a 500. */
  datatype Response = PdfAttachment(document: Document) | BadRequest(error: RequestError) | ConversionFailed

  function StatusCode(r: Response): int
  {
    match r
    case PdfAttachment(_) => 200
    case BadRequest(_) => 400
    case ConversionFailed => 500
  }

  // ---------------- specification of the handler ----------------

  /** An upload the loop gets past: an allowed name and content Pillow can decode. */
  predicate Convertible(u: Upload)
  {
    Uploads.AllowedFilename(u.filename) && u.content.Image?
  }

  /** How the loop over the files ends: all converted, or stopped at a file (by position). */
  datatype Scan = AllAccepted(pictures: seq<Picture>) | Unsupported(at: nat, filename: string) | Undecodable(at: nat)

  function ScanUploads(files: seq<Upload>): (scan: Scan)
    ensures scan.AllAccepted? ==> |scan.pictures| == |files|
    ensures !scan.AllAccepted? ==> scan.at < |files|
    decreases |files|
  {
    if files == [] then AllAccepted([])
    else if !Uploads.AllowedFilename(files[0].filename) then Unsupported(0, files[0].filename)
    else if files[0].content.NotAnImage? then Undecodable(0)
    else match ScanUploads(files[1..])
      case AllAccepted(pictures) => AllAccepted([files[0].content.picture] + pictures)
      case Unsupported(i, name) => Unsupported(i + 1, name)
      case Undecodable(i) => Undecodable(i + 1)
  }

  /**
   * What the handler answers, given the request and whether Pillow's PDF
   * writer fails: the missing key, then the empty list, then the files in
   * order, then the PDF.
   */
  function ConvertOutcome(request: Request, writerFails: bool): (response: Response)
    ensures response == BadRequest(NoFilesProvided) <==> request.files.None?
    ensures response == BadRequest(EmptyFileList) <==> request.files == Some([])
    ensures response.PdfAttachment? ==> !writerFails && |response.document.pages| == |request.files.value|
  {
    match request.files
    case None => BadRequest(NoFilesProvided)
    case Some(files) =>
      if files == [] then BadRequest(EmptyFileList)
      else match ScanUploads(files)
        case Unsupported(_, name) => BadRequest(UnsupportedFile(name))
        case Undecodable(_) => ConversionFailed
        case AllAccepted(pictures) => if writerFails then ConversionFailed else PdfAttachment(Document(pictures))
  }

  /** How many temporary JPEGs the loop has made when it stops. */
  function TempCount(request: Request): nat
  {
    match request.files
    case None => 0
    case Some(files) =>
      match ScanUploads(files)
      case AllAccepted(pictures) => |pictures|
      case Unsupported(i, _) => i
      case Undecodable(i) => i
  }

  /** The loop stops at the first unsupported name exactly when every file before it was converted. */
  lemma {:induction false} ScanUnsupportedIff(files: seq<Upload>, i: nat, name: string)
    ensures ScanUploads(files) == Unsupported(i, name)
        <==> i < |files| && (forall k :: 0 <= k < i ==> Convertible(files[k]))
             && !Uploads.AllowedFilename(files[i].filename) && files[i].filename == name
    decreases |files|
  {
    if files != [] && i > 0 {
      ScanUnsupportedIff(files[1..], i - 1, name);
      assert forall k :: 1 <= k < |files| ==> files[1..][k - 1] == files[k];
    }
  }

  /** The loop stops at an undecodable file exactly when every file before it was converted. */
  lemma {:induction false} ScanUndecodableIff(files: seq<Upload>, i: nat)
    ensures ScanUploads(files) == Undecodable(i)
        <==> i < |files| && (forall k :: 0 <= k < i ==> Convertible(files[k]))
             && Uploads.AllowedFilename(files[i].filename) && files[i].content.NotAnImage?
    decreases |files|
  {
    if files != [] && i > 0 {
      ScanUndecodableIff(files[1..], i - 1);
      assert forall k :: 1 <= k < |files| ==> files[1..][k - 1] == files[k];
    }
  }

  /** The loop gets through exactly when every file is convertible, and then keeps one picture per file, in order. */
  lemma {:induction false} ScanAcceptedIff(files: seq<Upload>)
    ensures ScanUploads(files).AllAccepted? <==> forall k :: 0 <= k < |files| ==> Convertible(files[k])
    ensures ScanUploads(files).AllAccepted? ==>
      var pictures := ScanUploads(files).pictures;
      |pictures| == |files| && forall k :: 0 <= k < |files| ==> pictures[k] == files[k].content.picture
    decreases |files|
  {
    if files != [] {
      ScanAcceptedIff(files[1..]);
      assert forall k :: 1 <= k < |files| ==> files[1..][k - 1] == files[k];
    }
  }

  /**
   * A request succeeds exactly when it has a non-empty list of convertible
   * files and the writer succeeds; the PDF then has one page per file, in
   * input order.
   */
  lemma ConvertSucceedsIff(request: Request, writerFails: bool)
    ensures ConvertOutcome(request, writerFails).PdfAttachment?
        <==> request.files.Some? && request.files.value != [] && !writerFails
             && forall k :: 0 <= k < |request.files.value| ==> Convertible(request.files.value[k])
    ensures ConvertOutcome(request, writerFails).PdfAttachment? ==>
      var files := request.files.value;
      var pages := ConvertOutcome(request, writerFails).document.pages;
      |pages| == |files| && forall k :: 0 <= k < |files| ==> files[k].content == Image(pages[k])
  {
    if request.files.Some? {
      ScanAcceptedIff(request.files.value);
    }
  }

  /**
   * The 400 for an unsupported file names the first file that the loop did not get past,
   * and only when every file before it was converted.
   */
  lemma ConvertRejectsFirstUnsupported(request: Request, writerFails: bool, i: nat)
    requires request.files.Some?
    ensures var files := request.files.value;
      (i < |files| && ConvertOutcome(request, writerFails) == BadRequest(UnsupportedFile(files[i].filename))
                   && ScanUploads(files).at == i)
      <==> i < |files| && (forall k :: 0 <= k < i ==> Convertible(files[k])) && !Uploads.AllowedFilename(files[i].filename)
  {
    var files := request.files.value;
    if i < |files| {
      ScanUnsupportedIff(files, i, files[i].filename);
      if ConvertOutcome(request, writerFails) == BadRequest(UnsupportedFile(files[i].filename)) && ScanUploads(files).at == i {
        assert ScanUploads(files).Unsupported?;
      }
    }
  }

  /** The loop reaches file i: it exists and every file before it was converted. */
  predicate Reached(files: seq<Upload>, i: nat)
  {
    i < |files| && forall k :: 0 <= k < i ==> Convertible(files[k])
  }

  /** Where the loop reaches a file it cannot convert, it stops there, for the reason that file gives. */
  lemma ScanStopsAt(files: seq<Upload>, i: nat)
    requires Reached(files, i) && !Convertible(files[i])
    ensures ScanUploads(files)
         == if Uploads.AllowedFilename(files[i].filename) then Undecodable(i) else Unsupported(i, files[i].filename)
  {
    ScanUnsupportedIff(files, i, files[i].filename);
    ScanUndecodableIff(files, i);
  }

  /**
   * The handler's status codes: 400 exactly for a missing or empty file list
   * or a refused name the loop reaches; 500 exactly for an undecodable file
   * the loop reaches or, with every file convertible, a failing PDF writer.
   */
  lemma ConvertStatusCodes(request: Request, writerFails: bool)
    ensures var code := StatusCode(ConvertOutcome(request, writerFails));
      && (code == 400 <==> request.files.None? || request.files.value == []
                           || exists i: nat :: Reached(request.files.value, i)
                                          && !Uploads.AllowedFilename(request.files.value[i].filename))
      && (code == 500 <==> request.files.Some? && request.files.value != []
                           && ((exists i: nat :: Reached(request.files.value, i)
                                            && Uploads.AllowedFilename(request.files.value[i].filename)
                                            && request.files.value[i].content.NotAnImage?)
                               || ((forall k :: 0 <= k < |request.files.value| ==> Convertible(request.files.value[k]))
                                   && writerFails)))
  {
    if request.files.Some? && request.files.value != [] {
      var files := request.files.value;
      ScanAcceptedIff(files);
      forall i: nat | Reached(files, i) && !Convertible(files[i])
        ensures ScanUploads(files)
             == if Uploads.AllowedFilename(files[i].filename) then Undecodable(i) else Unsupported(i, files[i].filename)
      {
        ScanStopsAt(files, i);
      }
      match ScanUploads(files)
      case Unsupported(i, name) => ScanUnsupportedIff(files, i, name);
      case Undecodable(i) => ScanUndecodableIff(files, i);
      case AllAccepted(_) =>
    }
  }

  // ---------------- the handler's steps ----------------

  /**
   * read_image_to_temp: saves the upload under a fresh name, decodes it,
   * writes it back as a JPEG under a second fresh name and removes the raw
   * upload whether or not decoding worked. None stands for the exception
   * Pillow raises on content it cannot decode.
   */
  method ReadImageToTemp(dir: UploadDir, upload: Upload) returns (temp: Option<Path>)
    requires dir.Valid()
    modifies dir
    ensures dir.Valid() && old(dir.nextId) <= dir.nextId
    ensures temp.None? <==> upload.content.NotAnImage?
    ensures temp.None? ==> dir.files == old(dir.files)
    ensures temp.Some? ==>
      old(dir.nextId) <= temp.value.id < dir.nextId && temp.value.kind == Jpeg
      && dir.files == old(dir.files)[temp.value := upload.content]
  {
    var rawPath := dir.FreshPath(RawUpload);
    dir.Save(rawPath, upload.content);
    var decoded := dir.files[rawPath];
    if decoded.Image? {
      var jpegPath := dir.FreshPath(Jpeg);
      dir.Save(jpegPath, Image(decoded.picture));
      temp := Some(jpegPath);
    } else {
      temp := None;
    }
    if dir.Exists(rawPath) {
      dir.Remove(rawPath);
    }
  }

  /** cleanup: removes every listed path that exists. */
  method Cleanup(dir: UploadDir, paths: seq<Path>)
    requires dir.Valid()
    modifies dir`files
    ensures dir.Valid() && dir.nextId == old(dir.nextId)
    ensures dir.files == old(dir.files) - PathSet(paths)
  {
    for i := 0 to |paths|
      invariant dir.Valid()
      invariant dir.files == old(dir.files) - (set k | 0 <= k < i :: paths[k])
    {
      if dir.Exists(paths[i]) {
        dir.Remove(paths[i]);
      }
    }
    assert (set k | 0 <= k < |paths| :: paths[k]) == PathSet(paths);
  }

  /**
   * create_pdf: opens every path as an image and saves the first with the
   * rest appended. None stands for an exception: a missing or undecodable
   * file, an empty list (pil_images[0]), or a failing PDF writer.
   */
  function CreatePdf(files: map<Path, Content>, paths: seq<Path>, writerFails: bool): (pdf: Option<Document>)
    ensures pdf.Some? <==> (paths != [] && !writerFails
                            && forall k :: 0 <= k < |paths| ==> paths[k] in files && files[paths[k]].Image?)
    ensures pdf.Some? ==> |pdf.value.pages| == |paths|
                          && forall k :: 0 <= k < |paths| ==> files[paths[k]] == Image(pdf.value.pages[k])
  {
    match OpenImages(files, paths)
    case None => None
    case Some(images) =>
      if images == [] || writerFails then None
      else Some(Document([images[0]] + images[1..]))
  }

  /** [Image.open(p).convert("RGB") for p in paths]; None when one of them raises. */
  function OpenImages(files: map<Path, Content>, paths: seq<Path>): (images: Option<seq<Picture>>)
    ensures images.Some? <==> forall k :: 0 <= k < |paths| ==> paths[k] in files && files[paths[k]].Image?
    ensures images.Some? ==> |images.value| == |paths|
                             && forall k :: 0 <= k < |paths| ==> files[paths[k]] == Image(images.value[k])
    decreases |paths|
  {
    if paths == [] then Some([])
    else if paths[0] !in files || files[paths[0]].NotAnImage? then None
    else
      match OpenImages(files, paths[1..])
      case None =>
        assert forall k :: 1 <= k < |paths| ==> paths[1..][k - 1] == paths[k];
        None
      case Some(rest) =>
        assert forall k :: 1 <= k < |paths| ==> paths[1..][k - 1] == paths[k];
        Some([files[paths[0]].picture] + rest)
  }

  /** The paths of a list, as a set. */
  function PathSet(paths: seq<Path>): set<Path>
  {
    set p | p in paths
  }

  /**
   * The bookkeeping of the handler's loop: the directory holds what it held
   * before plus one fresh JPEG for each of the first |temps| uploads,
   * recorded in temps in the order of the uploads, with strictly increasing ids.
   */
  ghost predicate Tracked(before: map<Path, Content>, firstId: nat, now: map<Path, Content>, nextId: nat,
                          temps: seq<Path>, uploads: seq<Upload>)
  {
    && |temps| <= |uploads|
    && firstId <= nextId
    && (forall p :: p in before ==> p.id < firstId)
    && (forall k :: 0 <= k < |temps| ==> firstId <= temps[k].id < nextId)
    && (forall j, k :: 0 <= j < k < |temps| ==> temps[j].id < temps[k].id)
    && now.Keys == before.Keys + PathSet(temps)
    && (forall p :: p in before ==> now[p] == before[p])
    && (forall k :: 0 <= k < |temps| ==> now[temps[k]] == uploads[k].content)
  }

  /** Recording the JPEG of the next upload keeps the bookkeeping. */
  lemma TrackedStep(before: map<Path, Content>, firstId: nat, now: map<Path, Content>, nextId: nat,
                    temps: seq<Path>, uploads: seq<Upload>, temp: Path, nextId': nat)
    requires Tracked(before, firstId, now, nextId, temps, uploads) && |temps| < |uploads|
    requires nextId <= temp.id < nextId'
    ensures Tracked(before, firstId, now[temp := uploads[|temps|].content], nextId', temps + [temp], uploads)
  {
    var temps', now' := temps + [temp], now[temp := uploads[|temps|].content];
    assert PathSet(temps') == PathSet(temps) + {temp};
    assert temp !in before;
    forall k | 0 <= k < |temps'| ensures now'[temps'[k]] == uploads[k].content {
      if k < |temps| {
        assert temps'[k] == temps[k];
        assert temps[k] != temp;
      }
    }
  }

  /** Removing the recorded paths gives back the directory as it was. */
  lemma TrackedCleanup(before: map<Path, Content>, firstId: nat, now: map<Path, Content>, nextId: nat,
                       temps: seq<Path>, uploads: seq<Upload>)
    requires Tracked(before, firstId, now, nextId, temps, uploads)
    ensures now - PathSet(temps) == before
    ensures forall k :: 0 <= k < |temps| ==> temps[k] !in before
  {
    assert (now - PathSet(temps)).Keys == before.Keys;
  }

  /** On the success path the PDF's pages are the uploads' pictures, as ConvertOutcome has them. */
  lemma TrackedPdf(before: map<Path, Content>, firstId: nat, now: map<Path, Content>, nextId: nat,
                   temps: seq<Path>, request: Request, writerFails: bool)
    requires request.files.Some? && request.files.value != []
    requires Tracked(before, firstId, now, nextId, temps, request.files.value)
    requires |temps| == |request.files.value|
    requires forall k :: 0 <= k < |request.files.value| ==> Convertible(request.files.value[k])
    ensures ConvertOutcome(request, writerFails)
         == match CreatePdf(now, temps, writerFails)
            case None => ConversionFailed
            case Some(document) => PdfAttachment(document)
    ensures TempCount(request) == |temps|
  {
    ScanAcceptedIff(request.files.value);
  }

  /**
   * The loop of convert over the uploads (`for f in files`): it stops at the
   * first refused name, answering "Unsupported file", or at the first
   * upload Pillow cannot decode, answering with a conversion failure. Each
   * upload it gets past leaves one fresh JPEG in the directory, recorded in
   * tempPaths in upload order (Tracked); nothing else in the directory changes.
   */
  method ReadUploads(dir: UploadDir, files: seq<Upload>) returns (tempPaths: seq<Path>, stop: Option<Response>)
    requires dir.Valid()
    modifies dir
    ensures dir.Valid()
    ensures Tracked(old(dir.files), old(dir.nextId), dir.files, dir.nextId, tempPaths, files)
    ensures stop.None? <==> ScanUploads(files).AllAccepted?
    ensures stop.None? ==> |tempPaths| == |files|
    ensures stop.Some? ==>
      && |tempPaths| == ScanUploads(files).at
      && stop.value == match ScanUploads(files)
                       case Unsupported(_, name) => BadRequest(UnsupportedFile(name))
                       case _ => ConversionFailed
  {
    ghost var before, firstId := dir.files, dir.nextId;
    tempPaths := [];
    stop := None;
    while |tempPaths| < |files| && stop.None?
      invariant dir.Valid()
      invariant Tracked(before, firstId, dir.files, dir.nextId, tempPaths, files)
      invariant forall k :: 0 <= k < |tempPaths| ==> Convertible(files[k])
      invariant stop.Some? ==> (
        && Reached(files, |tempPaths|)
        && var u := files[|tempPaths|];
           || (!Uploads.AllowedFilename(u.filename) && stop.value == BadRequest(UnsupportedFile(u.filename)))
           || (Uploads.AllowedFilename(u.filename) && u.content.NotAnImage? && stop.value == ConversionFailed))
      decreases |files| - |tempPaths|, if stop.Some? then 0 else 1
    {
      var f := files[|tempPaths|];
      if !Uploads.AllowedFilename(f.filename) {
        stop := Some(BadRequest(UnsupportedFile(f.filename)));
      } else {
        ghost var now, nextId := dir.files, dir.nextId;
        var temp := ReadImageToTemp(dir, f);
        if temp.None? {
          stop := Some(ConversionFailed);
        } else {
          TrackedStep(before, firstId, now, nextId, tempPaths, files, temp.value, dir.nextId);
          tempPaths := tempPaths + [temp.value];
        }
      }
    }
    if stop.Some? {
      ScanStopsAt(files, |tempPaths|);
    } else {
      ScanAcceptedIff(files);
    }
  }

  /**
   * convert: the handler. Its answer is ConvertOutcome; it makes one
   * temporary JPEG for each file it gets past (ReadUploads), all of them
   * fresh, and it leaves the upload directory exactly as it found it.
   */
  method Convert(dir: UploadDir, request: Request, writerFails: bool) returns (response: Response, ghost temps: seq<Path>)
    requires dir.Valid()
    modifies dir
    ensures dir.Valid()
    ensures response == ConvertOutcome(request, writerFails)
    ensures dir.files == old(dir.files)
    ensures |temps| == TempCount(request)
    ensures forall k :: 0 <= k < |temps| ==> temps[k] !in old(dir.files) && old(dir.nextId) <= temps[k].id
    ensures forall j, k :: 0 <= j < k < |temps| ==> temps[j].id < temps[k].id
  {
    temps := [];
    if request.files.None? {
      return BadRequest(NoFilesProvided), temps;
    }
    var files := request.files.value;
    if files == [] {
      return BadRequest(EmptyFileList), temps;
    }

    ghost var before, firstId := dir.files, dir.nextId;
    var tempPaths, stop := ReadUploads(dir, files);
    if stop.Some? {
      response := stop.value;
    } else {
      ScanAcceptedIff(files);
      TrackedPdf(before, firstId, dir.files, dir.nextId, tempPaths, request, writerFails);
      match CreatePdf(dir.files, tempPaths, writerFails)
      case None =>
        response := ConversionFailed;
      case Some(document) =>
        response := PdfAttachment(document);
    }

    // finally: cleanup(temp_paths)
    TrackedCleanup(before, firstId, dir.files, dir.nextId, tempPaths, files);
    Cleanup(dir, tempPaths);
    temps := tempPaths;
  }
}
