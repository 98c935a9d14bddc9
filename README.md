# Paper form converter, modelled in Dafny

The service turns a photographed paper form into a digital form. It has two
parts:

- `lib/paper_form.py` sends the image to a multimodal model with an
  "analyzer" prompt. It cleans the reply of Markdown code fences and sends
  the cleaned field specifications back to the model with a "builder"
  prompt. The builder's reply, cleaned once more, is the result.
- `app.py` holds the `/image` HTTP endpoint. It checks the upload, saves it
  under a temporary name, runs the conversion on it, and deletes the
  temporary file whatever the conversion did.

The model covers both parts. Each file has one module:

- `py_str.dfy` (`PyStr`): the Python `str` methods the code calls:
  `strip`, `startswith`, `endswith` and `lower`. `strip` is built from
  `lstrip` and `rstrip`, over the whitespace set of `str.isspace`.
- `pure_path.dfy` (`PurePath`): `PurePath.name` and `PurePath.suffix` for
  POSIX paths, using pathlib's rule. The suffix starts at the last '.' of the
  final component, unless that dot is the component's first or last
  character.
- `paper_form.dfy` (`PaperForm`). It holds:
  - the sanitizers `clean_json_response` and `clean_html_response`, as one
    function `Clean(text, tag)`;
  - the request body that `call_claude` builds, both as a function and as
    the appending method the source uses;
  - the builder prompt;
  - the pipeline `analyze_form` → `build_json_form` → `convert_form`.
- `app.dfy` (`App`). It holds:
  - the ordered upload checks;
  - the temporary path;
  - the response the handler returns;
  - a `FileStore` class whose `files` map the handler changes in place;
  - the handler method `FromImage`.

The model call is a function parameter `RequestBody -> Outcome<string>`. It
stands for Bedrock's `invoke_model` together with the decoding of its reply.
`Raised(msg)` stands for an exception whose `str()` is `msg`. Because the
parameter is arbitrary, the results about the pipeline and the handler hold
for every reply and every failure the model can produce.

## Notes on the code

- The sanitizers are not idempotent (lib/paper_form.py:506-515). Each call
  removes at most one opening and one closing fence. `CleanNotIdempotent`
  gives a reply that needs two calls. `CleanIdempotentWhenUnfenced` proves
  idempotence under the condition where it holds: the first result neither
  starts nor ends with a fence.
- app.py:39 refuses `.pdf` with a 400. Yet `call_claude` is documented for
  an "image or PDF file" (lib/paper_form.py:437) and has a PDF branch
  (lib/paper_form.py:450-458). `PdfRefused` states both halves.
- `call_claude` never rejects a file type. Any extension outside ".pdf" and
  the image table falls back to `image/jpeg` (lib/paper_form.py:468), and so
  does a name without an extension (`UnknownExtensionIsJpeg`,
  `BitmapIsJpeg`, `NoSuffixIsJpeg`).
- Neither stage parses the model's output. `analyze_form` and
  `build_json_form` return cleaned text (lib/paper_form.py:549 and 571), so
  `ConvertFormCalls` states the result as text.
- `build_json_form` cleans its answer with the HTML sanitizer
  (lib/paper_form.py:569), although that answer is JSON. So a reply fenced as
  ```` ```json ```` keeps the word `json` (`CleanHtmlOnJsonReply`).

## Model

| member | source | states |
|---|---|---|
| PyStr.IsSpace | lib/paper_form.py:508 | the whitespace `strip` removes: U+0009..U+000D, U+001C..U+0020 and the Unicode spaces `str.isspace` accepts (a definition; no contract) |
| PyStr.IsSpaceAscii | lib/paper_form.py:508 | on ASCII, whitespace is exactly tab, newline, vertical tab, form feed, carriage return, U+001C..U+001F and space |
| PyStr.StartsWith | lib/paper_form.py:509 | `s.startswith(p)`: `p` is no longer than `s` and is its front part (a definition; StartsWithConcat characterises it) |
| PyStr.StartsWithConcat | lib/paper_form.py:509 | `s` starts with `p` exactly when `s` is `p` followed by the rest of `s`, and `p + x` always starts with `p` |
| PyStr.EndsWith | lib/paper_form.py:513 | `s.endswith(p)`: `p` is no longer than `s` and is its end part (a definition; EndsWithConcat characterises it) |
| PyStr.EndsWithConcat | lib/paper_form.py:513 | `s` ends with `p` exactly when `s` is the rest of `s` followed by `p`, and `x + p` always ends with `p` |
| PyStr.TrimStart | lib/paper_form.py:508 | the result is the input minus a leading run of whitespace, and does not start with whitespace |
| PyStr.TrimEnd | lib/paper_form.py:508 | the result is the input minus a trailing run of whitespace, and does not end with whitespace |
| PyStr.Strip | lib/paper_form.py:508 | the result has no whitespace at either end, and is the slice of the input left after whitespace is removed from both ends |
| PyStr.StripOfUnique | lib/paper_form.py:515 | at most one string is "the input with its surrounding whitespace removed", so `Strip` is determined by that description |
| PyStr.StripPadded | lib/paper_form.py:508 | stripping whitespace padding from text that has no whitespace at its ends gives the text back |
| PyStr.StripStripped | lib/paper_form.py:515 | `strip` leaves a string without surrounding whitespace unchanged |
| PyStr.StripIdempotent | lib/paper_form.py:515 | stripping twice is stripping once |
| PyStr.SliceOfSlice | lib/paper_form.py:506-515 | being a contiguous piece of a string is transitive |
| PyStr.StripPosition | lib/paper_form.py:508 | the stripped text sits at some positions i..j of the input |
| PyStr.Lower | app.py:40 | the lowered string has the same length as the input; what each character becomes is LowerResult's contract |
| PyStr.LowerResult | app.py:40 | no character of the result is an upper-case ASCII letter: each upper-case letter moves 32 code points up, to its lower-case letter, and every other character stays |
| PyStr.LowerIdempotent | app.py:40 | lowering twice is lowering once |
| PurePath.LastIndexOf | lib/paper_form.py:448 | the result is the position of the last occurrence of the character, or -1 exactly when it does not occur |
| PurePath.Name | app.py:40 | the name is the longest end of the path without '/', and it is preceded by '/' whenever it is not the whole path |
| PurePath.NameOfUnique | app.py:40 | that description determines the name |
| PurePath.NameOfConcat | app.py:52 | appending `f` to a path gives `f`'s name when `f` holds a '/', and otherwise the old name continued by `f` |
| PurePath.NameSuffix | app.py:40 | the suffix of one component is empty, or an end of it that starts with '.', is at least two characters long and holds no further '.' |
| PurePath.Suffix | app.py:40 | the suffix is empty, or it is an end of the path that starts with '.', is at least two characters long, and holds no further '.' and no '/' |
| PurePath.NameSuffixAt | app.py:40 | when the last '.' of a name has characters on both sides of it, the suffix runs from that dot to the end |
| PurePath.NameSuffixAtEdge | app.py:40 | when the last '.' is the first or the last character of the name, there is no suffix |
| PurePath.NameSuffixDot | app.py:40 | conversely, a non-empty suffix starts at the last '.', which has characters on both sides |
| PurePath.SuffixAt | app.py:40 | the path-level form of NameSuffixAt |
| PurePath.NoSuffixAtEdge | app.py:40 | the path-level form of NameSuffixAtEdge |
| PurePath.SuffixDot | app.py:40 | the path-level form of NameSuffixDot |
| PurePath.NoSuffixWithoutDot | app.py:40 | a name with no '.' has no suffix |
| PurePath.SuffixOfConcat | app.py:52 | putting a directory or a prefix in front of a path that has a suffix keeps that suffix |
| PurePath.SuffixOfStemAndExtension | app.py:40 | "stem.ext" with a non-empty stem and a dot-free extension has ".ext" as its suffix |
| PurePath.NoSuffixForDotFile | app.py:40 | a name whose only dot comes first, like ".png", has no suffix |
| PurePath.NoSuffixForTrailingDot | app.py:40 | a name that ends with a dot has no suffix |
| PurePath.SuffixOfLower | lib/paper_form.py:448 | the suffix of the lower-cased path is the lower-cased suffix |
| PaperForm.DropOpening | lib/paper_form.py:509-512 | the result is an end of the input: the tag's length shorter if the input starts with the declared tag, else three characters shorter if it starts with a bare fence, else the input unchanged |
| PaperForm.DropClosing | lib/paper_form.py:513-514 | the result is a front part of the input: three characters shorter if the input ends with a fence, else the input unchanged |
| PaperForm.Clean | lib/paper_form.py:506-515 | the cleaned text has no whitespace at its ends and is never longer than the reply |
| PaperForm.CleanJsonResponse | lib/paper_form.py:506-515 | `clean_json_response` is `Clean` with the ```` ```json ```` tag; its result is stripped |
| PaperForm.CleanHtmlResponse | lib/paper_form.py:518-527 | `clean_html_response` is `Clean` with the ```` ```html ```` tag; its result is stripped |
| PaperForm.CleanIsSlice | lib/paper_form.py:506-515 | the cleaned text is one contiguous piece of the reply |
| PaperForm.CleanBounds | lib/paper_form.py:506-515 | the positions i..j of the reply that the cleaned text occupies |
| PaperForm.CleanKeepsUnfenced | lib/paper_form.py:506-515 | when the stripped reply neither starts nor ends with a fence, cleaning only strips it |
| PaperForm.TagStartsWithFence | lib/paper_form.py:509-511 | text that starts with the tag also starts with a bare fence, so the tag test must come first |
| PaperForm.CleanIdempotentWhenUnfenced | lib/paper_form.py:506-515 | cleaning twice equals cleaning once whenever the first result neither starts nor ends with a fence |
| PaperForm.DropOpeningTagged | lib/paper_form.py:509-510 | the declared tag is removed in full |
| PaperForm.DropOpeningBare | lib/paper_form.py:511-512 | a bare fence not followed by the tag loses its three backticks |
| PaperForm.DropClosingFenced | lib/paper_form.py:513-514 | a closing fence is removed |
| PaperForm.FencedIsStripped | lib/paper_form.py:508 | text between an opening fence and a closing fence has no whitespace at its ends |
| PaperForm.CleanUnwrapsTagged | lib/paper_form.py:506-515 | a stripped payload between the declared tag and a closing fence comes back exactly, with any whitespace around the fences and around the payload |
| PaperForm.TaggedStages | lib/paper_form.py:509-514 | between the tag and a closing fence, both fences go |
| PaperForm.CleanUnwrapsBare | lib/paper_form.py:506-515 | a stripped payload between bare fences comes back exactly, unless the opening fence and what follows it spell the tag |
| PaperForm.BareStages | lib/paper_form.py:511-514 | between two bare fences, both go |
| PaperForm.CleanUnwrapsUnclosed | lib/paper_form.py:506-515 | a fence that is opened and never closed: only the opening fence goes |
| PaperForm.CleanUnwrapsClosing | lib/paper_form.py:513-515 | a reply that ends with a fence it never opened, like "x```", loses only the closing fence |
| PaperForm.CleanUnwrapsTaggedUnclosed | lib/paper_form.py:509-510 | a reply that opens with the declared tag and never closes the fence, like "```jsonx", loses only the tag |
| PaperForm.NoFenceAfterSpace | lib/paper_form.py:513 | whitespace in front of text that does not end with a fence does not make it end with one |
| PaperForm.CleanJsonExample | lib/paper_form.py:506-515 | a fenced JSON object loses its fences and its newlines |
| PaperForm.CleanTagIsCaseSensitive | lib/paper_form.py:509-512 | "```JSON x" loses only the bare fence and cleans to "JSON x" |
| PaperForm.CleanLoneFence | lib/paper_form.py:510-515 | a reply that is only a bare fence cleans to the empty string |
| PaperForm.CleanLoneTag | lib/paper_form.py:509-515 | a reply that is only the tag cleans to the empty string: the closing test looks only at what is left |
| PaperForm.CleanNotIdempotent | lib/paper_form.py:506-515 | a doubly fenced reply cleans to a fenced reply, and that cleans to something else again |
| PaperForm.CleanHtmlOnJsonReply | lib/paper_form.py:518-527 | the HTML sanitizer leaves "json" at the front of a reply fenced as JSON |
| PaperForm.Extension | lib/paper_form.py:448 | the lower-cased suffix is empty or starts with a dot, and is no longer than the path |
| PaperForm.ImageMediaType | lib/paper_form.py:461-468 | a known image extension gets its table entry and anything else gets image/jpeg; never application/pdf |
| PaperForm.Attachment | lib/paper_form.py:448-477 | the block is a document exactly when the extension is ".pdf", and then it is application/pdf. Otherwise it is an image whose media type is the table entry for the extension, or image/jpeg when the table has none. The block carries the file's bytes |
| PaperForm.Attaches | lib/paper_form.py:444 | `if file_path:` holds when a path is given and is not the empty string (a definition; Request states its effect) |
| PaperForm.Request | lib/paper_form.py:442-493 | version "bedrock-2023-05-31", 4000 max tokens, one user message; its content is the attachment (present exactly when a non-empty path is given) followed by exactly one text block with the prompt |
| PaperForm.ContentShape | lib/paper_form.py:479-482 | appending the prompt block keeps the attachments in front and puts the only text block last |
| PaperForm.BuildRequest | lib/paper_form.py:442-493 | the list built by appends is the request described by `Request` |
| PaperForm.AttachmentIgnoresCase | lib/paper_form.py:448 | a path and its lower-cased spelling get the same attachment |
| PaperForm.AttachmentIgnoresDirectory | lib/paper_form.py:448 | a directory in front of a name that has a suffix does not change the attachment |
| PaperForm.ImageMediaTypeTable | lib/paper_form.py:461-467 | the five image extensions map to their media types, and ".pdf" is not among them |
| PaperForm.ExtensionOfStem | lib/paper_form.py:448 | "stem.ext" has the lower-cased ".ext" as its extension |
| PaperForm.UpperCasePdfIsDocument | lib/paper_form.py:448-458 | "stem.PDF" is still sent as an application/pdf document |
| PaperForm.UpperCasePdfExtension | lib/paper_form.py:448 | "stem.PDF" has the extension ".pdf" |
| PaperForm.PdfAttachment | lib/paper_form.py:450-458 | any path with extension ".pdf" is sent as an application/pdf document with its bytes |
| PaperForm.NoSuffixIsJpeg | lib/paper_form.py:468 | a file name without a suffix is sent as an image/jpeg image, not refused |
| PaperForm.UnknownExtensionIsJpeg | lib/paper_form.py:459-477 | any extension other than ".pdf" and the table's keys is sent as an image/jpeg image, not refused |
| PaperForm.BitmapIsJpeg | lib/paper_form.py:468 | "stem.bmp" is sent as an image/jpeg image |
| PaperForm.BitmapExtension | lib/paper_form.py:448 | "stem.bmp" has the extension ".bmp", which is neither ".pdf" nor in the table |
| PaperForm.NoSuffixExtension | lib/paper_form.py:448 | a plain name without a dot has the empty extension |
| PaperForm.BuilderPrompt | lib/paper_form.py:564 | the builder prompt starts with the instructions and the header, and ends with the specifications |
| PaperForm.BuilderPromptInjective | lib/paper_form.py:564 | different specifications give different builder prompts |
| PaperForm.CallClaude | lib/paper_form.py:431-503 | the model answers, or raises on, the body built for the prompt and the file (a definition; Request and BuildRequest state the body the model receives) |
| PaperForm.AnalyzeForm | lib/paper_form.py:530-549 | a returned analysis has no whitespace at its ends |
| PaperForm.BuildJsonForm | lib/paper_form.py:552-571 | a returned form has no whitespace at its ends |
| PaperForm.ConvertForm | lib/paper_form.py:574-589 | a returned conversion has no whitespace at its ends |
| PaperForm.ConvertFormCalls | lib/paper_form.py:574-589 | the first request carries the image and the analyzer prompt. The second carries no file, and its prompt ends with the cleaned analysis. The result is the cleaned second reply, a piece of that reply. The first exception raised is the outcome |
| PaperForm.BuilderRequestHasNoFile | lib/paper_form.py:566 | the builder request's content is the single prompt block |
| App.Join | app.py:45 | `sep.join(parts)`: the parts in order with the separator between neighbours (a definition; JoinHoldsPart states a property) |
| App.JoinHoldsPart | app.py:45 | every part appears in one piece in the joined text |
| App.InvalidTypeError | app.py:45 | the invalid-type error starts with its fixed prefix |
| App.InvalidTypeErrorNamesAll | app.py:45 | whatever the set's iteration order, the invalid-type error names every allowed extension |
| App.Acceptable | app.py:32-42 | an upload passes when its name is not empty and its lower-cased suffix is allowed (a definition; CheckUpload states its role) |
| App.CheckUpload | app.py:23-46 | an upload is accepted exactly when the "file" key is present, the name is non-empty and the lower-cased suffix is allowed. Otherwise the first failing check, in the order key, name, extension, picks the error |
| App.TempPath | app.py:49-52 | the saved path is "temp/upload_" followed by exactly the file name |
| App.TempPathInjective | app.py:52 | different file names are saved under different paths |
| App.Respond | app.py:21-74 | the status is 200, 400 or 500, and the reply reports success exactly for 200 |
| App.FileStore.Exists | app.py:67 | `Path.exists`: the path is a key of the store (a definition) |
| App.FileStore.Save | app.py:53 | the file at the path is created or replaced by the data, and nothing else changes |
| App.FileStore.Unlink | app.py:67-68 | the path is removed, and nothing else changes |
| App.FromImage | app.py:21-74 | the handler returns `Respond`'s response. A refused request leaves the store untouched. After an accepted one, the temporary path does not exist and every other file is as before, whether the conversion returned or raised |
| App.SaveThenRemove | app.py:53-68 | saving a file and removing it leaves what removing it alone leaves |
| App.RespondAccepted | app.py:55-74 | an accepted upload's response is 200 with the conversion's result, or 500 with the exception's text |
| App.RespondStatus | app.py:21-74 | 400 exactly when a check fails, carrying that check's error. After acceptance, 200 exactly when the conversion returned, carrying its result and the fixed message; 500 with the exception text when it raised |
| App.RejectionIgnoresModel | app.py:23-46 | a refused request never reaches the model: its 400 response is the same whatever the prompts and the model |
| App.SuccessIsStripped | app.py:59-63 | a successful result has no whitespace at its ends and carries the fixed success message |
| App.AllowedAreKnownImages | app.py:39 | the whitelist is exactly the key set of `call_claude`'s image table |
| App.AcceptedUploadMediaType | app.py:49-57 | an accepted upload reaches the model as an image with the media type of its own extension; the "temp/upload_" prefix does not change it |
| App.AcceptedHasImageSuffix | app.py:39-46 | an accepted file name has a suffix, and its extension is not ".pdf" |
| App.AcceptedMediaTypeFromTable | app.py:39 | an accepted extension is found in the image table |
| App.AllowedIsImageExtension | app.py:39 | no allowed extension is empty or ".pdf" |
| App.UpperCasePngAccepted | app.py:39-46 | "stem.PNG" passes the checks |
| App.UpperCasePngExtension | app.py:40 | "stem.PNG" has the extension ".png" |
| App.PdfRefused | app.py:39-46 | a ".pdf" upload gets 400 with the invalid-type error, although `call_claude` would have sent it as a PDF document |
| App.PdfResponse | app.py:39-46 | a ".pdf" upload gets 400 with the invalid-type error |
| App.PdfDocument | app.py:49-57 | the saved ".pdf" file would be attached as an application/pdf document |
| App.PdfName | app.py:40 | "stem.pdf" has the extension ".pdf" |
| App.NoSuffixRefused | app.py:40-46 | a non-empty name without a suffix is refused with the invalid-type error |

## Left out

- PyStr.Lower: lowers only the ASCII letters. Python's `str.lower` also maps other Unicode letters; the extensions that matter are ASCII.
- PurePath.Suffix: follows pathlib's rule before Python 3.14, where a name ending in '.' (like "form.") has no suffix. From 3.14 on, pathlib gives "." there. No upload check changes, since "." is neither allowed nor ".pdf".
- PurePath.Name: pathlib normalises a path before taking its name. It drops a trailing '/', collapses "//" and removes "." components. The model takes the text after the last '/' as it is. So an upload named like "x.png/" is refused here with the invalid-type error, while the service accepts it, because pathlib gives it the suffix ".png". It then saves the upload as "temp/upload_x.png" and converts it. App.TempPath likewise keeps "//" and "/./", which pathlib's `/` join would remove.
- App.InvalidTypeError: the order in which the error lists the allowed extensions is the interpreter's set iteration order. That order is unspecified, so it is a parameter, and only "every allowed extension is named" is proved.
- Base64 encoding is not modelled. A source block carries the file's raw bytes where the request carries their base64 text.
- Reading the file in `call_claude` is I/O. The model passes the path and the bytes together as a `FileRef`.
- Bedrock's `invoke_model` and the JSON decoding of its reply are a network call into a library. They form the `model` function parameter.
- The texts of the analyzer and builder prompts are data. They are parameters (`Prompts`).
- `convert_form`'s `output_path` file writing and all `print` output are I/O with no effect on the result.
- App.FromImage: handles one request at a time. The development server that `app.run` starts (app.py:89) serves requests on several threads. Two uploads with the same file name share `temp/upload_<name>` (app.py:52). One request's `finally` (app.py:67-68) can then delete the file before the other converts it, or one save can replace the bytes the other converts. The postcondition that the conversion sees this upload's bytes, and that the store afterwards lacks only the temporary path, holds only without such interleaving.
- App.FromImage: creating the `temp` directory and saving the upload are taken to succeed. So the 500 response for an exception raised there is not modelled, for example a file name holding a '/' that names a missing directory.
- The JSON envelope of a response is not modelled. `Reply` carries `success` as its constructor and the `error`, `results` and `message` fields.
- The `/health` endpoint returns a constant.
- `flask_bedrock_agent.py` and `lib/screenshot.py` are not part of this model: an agent call under a thread-pool timeout, and a headless-browser screenshot.
