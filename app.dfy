/**
  The `/image` endpoint of the web service: validate the multipart upload,
  save it under a temporary name, run the two-stage conversion on it, and
  delete the temporary file again, whatever the conversion did.
 */
module App {
  import opened PyStr
  import opened PurePath
  import opened PaperForm

  /** An uploaded file: the client's file name and the bytes sent. */
  datatype Upload = Upload(filename: string, data: seq<byte>)

  /** The JSON payload of a response: `success` is true exactly for
      `Succeeded`. */
  datatype Reply =
    | Succeeded(results: string, message: string)
    | Failed(error: string)

  datatype Response = Response(status: int, reply: Reply)

  /** The outcome of the request checks: the upload to convert, or the error
      of the first check that failed. */
  datatype Verdict = Accepted(upload: Upload) | Rejected(error: string)

  /** The multipart key the upload must come under. */
  const FileKey: string := "file"
  const AllowedExtensions: set<string> := {".png", ".jpg", ".jpeg", ".gif", ".webp"}
  const NoFileError: string := "No file provided. Please upload a file with key \"file\""
  const NoSelectionError: string := "No file selected"
  const InvalidTypePrefix: string := "Invalid file type. Allowed types: "
  const SuccessMessage: string := "Form converted successfully"
  /** Where uploads are saved: `temp/` and a prefix before the file name. */
  const TempPrefix: string := "temp/upload_"

  /** `sep.join(parts)` */
  function Join(parts: seq<string>, sep: string): string {
    if |parts| == 0 then []
    else if |parts| == 1 then parts[0]
    else parts[0] + sep + Join(parts[1..], sep)
  }

  /** Each part appears, in one piece, in the joined text. */
  lemma {:induction false} JoinHoldsPart(parts: seq<string>, sep: string, i: int)
    requires 0 <= i < |parts|
    ensures IsSlice(parts[i], Join(parts, sep))
  {
    var r := Join(parts, sep);
    if |parts| == 1 {
      assert parts[0] == r[0..|r|];
    } else if i == 0 {
      assert parts[0] == r[0..|parts[0]|];
    } else {
      var tail := Join(parts[1..], sep);
      JoinHoldsPart(parts[1..], sep, i - 1);
      assert tail == r[|r| - |tail|..|r|];
      assert IsSlice(tail, r);
      SliceOfSlice(parts[i], tail, r);
    }
  }

  /** `order` lists the allowed extensions, each once: the order in which
      the interpreter happens to iterate over the set. */
  ghost predicate IsListing(order: seq<string>) {
    multiset(order) == multiset(AllowedExtensions)
  }

  /** The error for a refused extension; `order` is the set's iteration
      order, which the language leaves unspecified. */
  function InvalidTypeError(order: seq<string>): (r: string)
    ensures StartsWith(r, InvalidTypePrefix)
  {
    InvalidTypePrefix + Join(order, ", ")
  }

  /** Whatever the iteration order, the error names every allowed extension. */
  lemma InvalidTypeErrorNamesAll(order: seq<string>, ext: string)
    requires IsListing(order) && ext in AllowedExtensions
    ensures IsSlice(ext, InvalidTypeError(order))
  {
    assert ext in multiset(order);
    var i :| 0 <= i < |order| && order[i] == ext;
    JoinHoldsPart(order, ", ", i);
    var joined := Join(order, ", ");
    var r := InvalidTypeError(order);
    assert joined == r[|InvalidTypePrefix|..|r|];
    SliceOfSlice(ext, joined, r);
  }

  /** An upload passes the checks when it has a name whose lower-cased
      suffix is on the list. */
  predicate Acceptable(u: Upload) {
    u.filename != "" && Extension(u.filename) in AllowedExtensions
  }

  /** The three checks, in order: key present, name not empty, extension
      allowed. The first that fails decides the error. */
  function CheckUpload(files: map<string, Upload>, order: seq<string>): (v: Verdict)
    ensures v.Accepted? <==> FileKey in files && Acceptable(files[FileKey])
    ensures v.Accepted? ==> v.upload == files[FileKey]
    ensures FileKey !in files ==> v == Rejected(NoFileError)
    ensures FileKey in files && files[FileKey].filename == "" ==> v == Rejected(NoSelectionError)
    ensures FileKey in files && files[FileKey].filename != "" && !Acceptable(files[FileKey])
            ==> v == Rejected(InvalidTypeError(order))
  {
    if FileKey !in files then Rejected(NoFileError)
    else if files[FileKey].filename == "" then Rejected(NoSelectionError)
    else if Extension(files[FileKey].filename) !in AllowedExtensions then Rejected(InvalidTypeError(order))
    else Accepted(files[FileKey])
  }

  /** The path an upload is saved under. */
  function TempPath(filename: string): (r: string)
    ensures StartsWith(r, TempPrefix)
    ensures |r| == |TempPrefix| + |filename| && r[|TempPrefix|..] == filename
  {
    TempPrefix + filename
  }

  /** Different file names are saved under different paths. */
  lemma TempPathInjective(f1: string, f2: string)
    requires TempPath(f1) == TempPath(f2)
    ensures f1 == f2
  {
    assert f1 == TempPath(f1)[|TempPrefix|..];
    assert f2 == TempPath(f2)[|TempPrefix|..];
  }

  /** The response of the handler, as a function of the request, the
      prompts and the model. */
  function Respond(files: map<string, Upload>, order: seq<string>, prompts: Prompts,
                   model: RequestBody -> Outcome<string>): (resp: Response)
    ensures resp.status == 200 || resp.status == 400 || resp.status == 500
    ensures resp.reply.Succeeded? <==> resp.status == 200
  {
    match CheckUpload(files, order)
    case Rejected(e) => Response(400, Failed(e))
    case Accepted(u) =>
      match ConvertForm(FileRef(TempPath(u.filename), u.data), prompts, model)
      case Returned(html) => Response(200, Succeeded(html, SuccessMessage))
      case Raised(e) => Response(500, Failed(e))
  }

  /** The files on disk, by path. */
  class FileStore {
    var files: map<string, seq<byte>>

    /** `Path.exists` */
    predicate Exists(path: string)
      reads this
    {
      path in files
    }

    /** `FileStorage.save`: creates or overwrites the file. */
    method Save(path: string, data: seq<byte>)
      modifies this
      ensures files == old(files)[path := data]
    {
      files := files[path := data];
    }

    /** `Path.unlink` */
    method Unlink(path: string)
      requires path in files
      modifies this
      ensures files == old(files) - {path}
    {
      files := files - {path};
    }
  }

  /** `from_image`: the checks with their early returns, then save, convert
      and, in the `finally`, delete the temporary file. */
  method FromImage(store: FileStore, files: map<string, Upload>, order: seq<string>,
                   prompts: Prompts, model: RequestBody -> Outcome<string>) returns (resp: Response)
    modifies store
    ensures resp == Respond(files, order, prompts, model)
    ensures CheckUpload(files, order).Rejected? ==> store.files == old(store.files)
    ensures CheckUpload(files, order).Accepted? ==>
              && store.files == old(store.files) - {TempPath(files[FileKey].filename)}
              && !store.Exists(TempPath(files[FileKey].filename))
  {
    if FileKey !in files {
      return Response(400, Failed(NoFileError));
    }
    var file := files[FileKey];
    if file.filename == "" {
      return Response(400, Failed(NoSelectionError));
    }
    var fileExt := Extension(file.filename);
    if fileExt !in AllowedExtensions {
      return Response(400, Failed(InvalidTypeError(order)));
    }
    assert CheckUpload(files, order) == Accepted(file);
    var tempPath := TempPath(file.filename);
    store.Save(tempPath, file.data);
    var saved := store.files[tempPath];
    assert saved == file.data;
    var output := ConvertForm(FileRef(tempPath, saved), prompts, model);
    RespondAccepted(files, order, prompts, model);
    if output.Returned? {
      resp := Response(200, Succeeded(output.value, SuccessMessage));
    } else {
      resp := Response(500, Failed(output.message));
    }
    if store.Exists(tempPath) {
      store.Unlink(tempPath);
    }
    SaveThenRemove(old(store.files), tempPath, file.data);
  }

  /** Writing a file and then removing it leaves what removing it alone
      would have left. */
  lemma SaveThenRemove(before: map<string, seq<byte>>, path: string, data: seq<byte>)
    ensures before[path := data] - {path} == before - {path}
  {
  }

  lemma RespondAccepted(files: map<string, Upload>, order: seq<string>, prompts: Prompts,
                        model: RequestBody -> Outcome<string>)
    requires FileKey in files && Acceptable(files[FileKey])
    ensures var u := files[FileKey];
      var out := ConvertForm(FileRef(TempPath(u.filename), u.data), prompts, model);
      Respond(files, order, prompts, model)
        == if out.Returned? then Response(200, Succeeded(out.value, SuccessMessage))
           else Response(500, Failed(out.message))
  {
  }

  /** What each status means: 400 for a refused request, 200 for a
      conversion that returned, 500 for one that raised, with the result or
      the exception's text in the reply. */
  lemma RespondStatus(files: map<string, Upload>, order: seq<string>, prompts: Prompts,
                      model: RequestBody -> Outcome<string>)
    ensures var resp := Respond(files, order, prompts, model);
      && (resp.status == 400 <==> CheckUpload(files, order).Rejected?)
      && (CheckUpload(files, order).Rejected? ==> resp.reply == Failed(CheckUpload(files, order).error))
      && (CheckUpload(files, order).Accepted? ==>
            var u := files[FileKey];
            var out := ConvertForm(FileRef(TempPath(u.filename), u.data), prompts, model);
            && (resp.status == 200 <==> out.Returned?)
            && (out.Returned? ==> resp.reply == Succeeded(out.value, SuccessMessage))
            && (out.Raised? ==> resp == Response(500, Failed(out.message))))
  {
  }

  /** A refused request never reaches the model: its response is the same
      whatever the prompts and the model. */
  lemma RejectionIgnoresModel(files: map<string, Upload>, order: seq<string>,
                              p1: Prompts, m1: RequestBody -> Outcome<string>,
                              p2: Prompts, m2: RequestBody -> Outcome<string>)
    requires !(FileKey in files && Acceptable(files[FileKey]))
    ensures Respond(files, order, p1, m1) == Respond(files, order, p2, m2)
    ensures Respond(files, order, p1, m1).status == 400
  {
  }

  /** A successful result is the stripped HTML of the builder's reply. */
  lemma SuccessIsStripped(files: map<string, Upload>, order: seq<string>, prompts: Prompts,
                          model: RequestBody -> Outcome<string>)
    requires Respond(files, order, prompts, model).status == 200
    ensures IsStripped(Respond(files, order, prompts, model).reply.results)
    ensures Respond(files, order, prompts, model).reply.message == SuccessMessage
  {
  }

  /** The whitelist is exactly the image table of the request builder. */
  lemma AllowedAreKnownImages()
    ensures AllowedExtensions == ImageMediaTypes.Keys
  {
  }

  /** An accepted upload reaches the model as an image with the media type
      of its own extension: the `temp/upload_` prefix does not change it. */
  lemma AcceptedUploadMediaType(u: Upload)
    requires Acceptable(u)
    ensures Attachment(FileRef(TempPath(u.filename), u.data))
         == ImageBlock(Base64Source(ImageMediaTypes[Extension(u.filename)], u.data))
  {
    AcceptedHasImageSuffix(u);
    AttachmentIgnoresDirectory(TempPrefix, u.filename, u.data);
    AcceptedMediaTypeFromTable(u);
  }

  lemma AcceptedHasImageSuffix(u: Upload)
    requires Acceptable(u)
    ensures Suffix(u.filename) != [] && Extension(u.filename) != PdfExtension
  {
    AllowedIsImageExtension(Extension(u.filename));
    assert |Extension(u.filename)| == |Suffix(u.filename)|;
  }

  lemma AllowedIsImageExtension(e: string)
    requires e in AllowedExtensions
    ensures e != [] && e != PdfExtension
  {
  }

  lemma AcceptedMediaTypeFromTable(u: Upload)
    requires Acceptable(u)
    ensures ImageMediaType(Extension(u.filename)) == ImageMediaTypes[Extension(u.filename)]
  {
    AllowedAreKnownImages();
  }

  /** The extension check ignores case: "<stem>.PNG" passes. */
  lemma UpperCasePngAccepted(stem: string, data: seq<byte>, order: seq<string>)
    requires '/' !in stem && stem != []
    ensures CheckUpload(map[FileKey := Upload(stem + ".PNG", data)], order)
         == Accepted(Upload(stem + ".PNG", data))
  {
    UpperCasePngExtension(stem);
  }

  lemma UpperCasePngExtension(stem: string)
    requires '/' !in stem && stem != []
    ensures Extension(stem + ".PNG") == ".png"
  {
    ExtensionOfStem(stem, "PNG");
    LowerPng();
  }

  lemma LowerPng()
    ensures "." + "PNG" == ".PNG"
    ensures Lower(".PNG") == ".png"
  {
    assert Lower(".PNG")[1] == 'p' && Lower(".PNG")[2] == 'n' && Lower(".PNG")[3] == 'g';
  }

  /** A PDF is refused with 400, although the request builder would have
      sent it as a PDF document. */
  lemma PdfRefused(name: string, data: seq<byte>, order: seq<string>, prompts: Prompts,
                   model: RequestBody -> Outcome<string>)
    requires Extension(name) == PdfExtension
    ensures Respond(map[FileKey := Upload(name, data)], order, prompts, model)
         == Response(400, Failed(InvalidTypeError(order)))
    ensures Attachment(FileRef(TempPath(name), data)) == DocumentBlock(Base64Source(PdfMediaType, data))
  {
    PdfResponse(name, data, order, prompts, model);
    PdfDocument(name, data);
  }

  lemma PdfResponse(name: string, data: seq<byte>, order: seq<string>, prompts: Prompts,
                    model: RequestBody -> Outcome<string>)
    requires Extension(name) == PdfExtension
    ensures Respond(map[FileKey := Upload(name, data)], order, prompts, model)
         == Response(400, Failed(InvalidTypeError(order)))
  {
    assert |name| >= |PdfExtension|;
    assert PdfExtension !in AllowedExtensions;
    var files := map[FileKey := Upload(name, data)];
    assert CheckUpload(files, order) == Rejected(InvalidTypeError(order));
  }

  lemma PdfDocument(name: string, data: seq<byte>)
    requires Extension(name) == PdfExtension
    ensures Attachment(FileRef(TempPath(name), data)) == DocumentBlock(Base64Source(PdfMediaType, data))
  {
    assert |Extension(name)| == |Suffix(name)|;
    AttachmentIgnoresDirectory(TempPrefix, name, data);
  }

  /** "<stem>.pdf" is such a name. */
  lemma PdfName(stem: string)
    requires '/' !in stem && stem != []
    ensures Extension(stem + ".pdf") == PdfExtension
  {
    ExtensionOfStem(stem, "pdf");
    LowerPdfName();
  }

  lemma LowerPdfName()
    ensures "." + "pdf" == ".pdf"
    ensures Lower(".pdf") == PdfExtension
  {
    assert Lower(".pdf")[1] == 'p' && Lower(".pdf")[2] == 'd' && Lower(".pdf")[3] == 'f';
  }

  /** A name without a suffix is refused as an invalid type. */
  lemma NoSuffixRefused(name: string, data: seq<byte>, order: seq<string>)
    requires name != "" && '.' !in name && '/' !in name
    ensures CheckUpload(map[FileKey := Upload(name, data)], order) == Rejected(InvalidTypeError(order))
  {
    NoSuffixExtension(name);
  }
}
