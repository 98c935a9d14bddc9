/**
  The converter's library: the two response sanitizers, the request body
  that `call_claude` sends to the model, the builder prompt, and the
  two-stage pipeline `convert_form` that chains them.  The model call
  itself (Bedrock's `invoke_model` and the decoding of its reply) is a
  function the caller passes in.
 */
module PaperForm {
  import opened PyStr
  import opened PurePath

  newtype byte = b: int | 0 <= b < 256

  /** What a Python call that may raise produces: its value, or the text
      `str(e)` of the exception it raised. */
  datatype Outcome<+T> = Returned(value: T) | Raised(message: string)

  datatype Option<+T> = None | Some(value: T)

  // ---------------------------------------------------------------------
  // Response sanitizers (clean_json_response, clean_html_response)
  // ---------------------------------------------------------------------

  /** A bare Markdown code fence. */
  const Fence: string := "```"
  /** The opening fence that declares a JSON payload. */
  const JsonFence: string := "```json"
  /** The opening fence that declares an HTML payload. */
  const HtmlFence: string := "```html"

  /** A fence with a language tag: a bare fence followed by a name. */
  predicate IsTaggedFence(tag: string) {
    StartsWith(tag, Fence)
  }

  /** The opening step: one fence goes from the front, the declared tag in
      preference to a bare fence. */
  function DropOpening(t: string, tag: string): (r: string)
    ensures |r| <= |t| && r == t[|t| - |r|..]
    ensures StartsWith(t, tag) ==> |r| == |t| - |tag|
    ensures !StartsWith(t, tag) && StartsWith(t, Fence) ==> |r| == |t| - |Fence|
    ensures !StartsWith(t, tag) && !StartsWith(t, Fence) ==> r == t
  {
    if StartsWith(t, tag) then t[|tag|..]
    else if StartsWith(t, Fence) then t[|Fence|..]
    else t
  }

  /** The closing step: one bare fence goes from the end. */
  function DropClosing(t: string): (r: string)
    ensures |r| <= |t| && r == t[..|r|]
    ensures EndsWith(t, Fence) ==> |r| == |t| - |Fence|
    ensures !EndsWith(t, Fence) ==> r == t
  {
    if EndsWith(t, Fence) then t[..|t| - |Fence|] else t
  }

  /** Both sanitizers: strip, drop one opening fence, drop one closing
      fence, strip again. */
  function Clean(text: string, tag: string): (r: string)
    ensures IsStripped(r)
    ensures |r| <= |text|
  {
    Strip(DropClosing(DropOpening(Strip(text), tag)))
  }

  /** `clean_json_response` */
  function CleanJsonResponse(text: string): (r: string)
    ensures IsStripped(r)
  {
    Clean(text, JsonFence)
  }

  /** `clean_html_response` */
  function CleanHtmlResponse(text: string): (r: string)
    ensures IsStripped(r)
  {
    Clean(text, HtmlFence)
  }

  /** The cleaned text is one contiguous piece of the reply. */
  lemma CleanIsSlice(text: string, tag: string)
    ensures IsSlice(Clean(text, tag), text)
  {
    var i, j := CleanBounds(text, tag);
  }

  /** Where the cleaned text sits in the reply. */
  lemma CleanBounds(text: string, tag: string) returns (i: int, j: int)
    ensures 0 <= i <= j <= |text| && Clean(text, tag) == text[i..j]
  {
    var t := Strip(text);
    var rest := DropOpening(t, tag);
    var closed := DropClosing(rest);
    i, j := StagesBounds(text, tag, t, rest, closed);
  }

  lemma StagesBounds(text: string, tag: string, t: string, rest: string, closed: string) returns (i: int, j: int)
    requires t == Strip(text) && rest == DropOpening(t, tag) && closed == DropClosing(rest)
    ensures 0 <= i <= j <= |text| && Strip(closed) == text[i..j]
  {
    var i1, j1 := StripPosition(text);
    var i2, j2 := StripPosition(closed);
    i, j := NestedSlicePosition(text, t, i1, j1, rest, closed, i2, j2);
  }

  /** The positions in `text` of a slice of a front part of an end part of
      a slice of `text`. */
  lemma NestedSlicePosition(text: string, t: string, i1: int, j1: int, rest: string,
                            closed: string, i2: int, j2: int) returns (i: int, j: int)
    requires 0 <= i1 <= j1 <= |text| && t == text[i1..j1]
    requires |rest| <= |t| && rest == t[|t| - |rest|..]
    requires |closed| <= |rest| && closed == rest[..|closed|]
    requires 0 <= i2 <= j2 <= |closed|
    ensures 0 <= i <= j <= |text| && closed[i2..j2] == text[i..j]
  {
    var d := |t| - |rest|;
    assert rest == t[d..|t|];
    assert closed == rest[0..|closed|];
    SliceOfSliceAt(rest, 0, |closed|, i2, j2);
    SliceOfSliceAt(t, d, |t|, i2, j2);
    SliceOfSliceAt(text, i1, j1, d + i2, d + j2);
    i, j := i1 + d + i2, i1 + d + j2;
  }

  /** Text that carries no fence at either end only loses its surrounding
      whitespace. */
  lemma CleanKeepsUnfenced(text: string, tag: string)
    requires IsTaggedFence(tag)
    requires !StartsWith(Strip(text), Fence) && !EndsWith(Strip(text), Fence)
    ensures Clean(text, tag) == Strip(text)
  {
    var t := Strip(text);
    TagStartsWithFence(t, tag);
    assert DropOpening(t, tag) == t;
    StripStripped(t);
  }

  /** Text that starts with a tagged fence starts with a bare one. */
  lemma TagStartsWithFence(t: string, tag: string)
    requires IsTaggedFence(tag)
    ensures StartsWith(t, tag) ==> StartsWith(t, Fence)
  {
    if StartsWith(t, tag) {
      assert t[..|Fence|] == t[..|tag|][..|Fence|];
    }
  }

  /** Cleaning again changes nothing, as long as the first result neither
      begins nor ends with a fence. */
  lemma CleanIdempotentWhenUnfenced(text: string, tag: string)
    requires IsTaggedFence(tag)
    requires !StartsWith(Clean(text, tag), Fence) && !EndsWith(Clean(text, tag), Fence)
    ensures Clean(Clean(text, tag), tag) == Clean(text, tag)
  {
    var c := Clean(text, tag);
    StripStripped(c);
    CleanKeepsUnfenced(c, tag);
  }

  /** Cleaning, one stage at a time. */
  lemma CleanStages(text: string, tag: string, t: string, rest: string, closed: string)
    requires Strip(text) == t && DropOpening(t, tag) == rest && DropClosing(rest) == closed
    ensures Clean(text, tag) == Strip(closed)
  {
  }

  lemma DropOpeningTagged(tag: string, x: string)
    ensures DropOpening(tag + x, tag) == x
  {
    assert (tag + x)[..|tag|] == tag;
  }

  lemma DropOpeningBare(x: string, tag: string)
    requires !StartsWith(Fence + x, tag)
    ensures DropOpening(Fence + x, tag) == x
  {
    assert (Fence + x)[..|Fence|] == Fence;
  }

  lemma DropClosingFenced(x: string)
    ensures DropClosing(x + Fence) == x
  {
    assert (x + Fence)[|x|..] == Fence;
  }

  /** Text between two fences, bare or tagged, has no whitespace at its
      ends. */
  lemma FencedIsStripped(open: string, x: string)
    requires IsTaggedFence(open)
    ensures IsStripped(open + x + Fence)
  {
    assert (open + x + Fence)[0] == open[0] == Fence[0];
  }

  /** A payload fenced with the declared tag, with any whitespace around
      the fences and around the payload, comes back exactly. */
  lemma CleanUnwrapsTagged(w1: string, tag: string, g1: string, p: string, g2: string, w2: string)
    requires IsTaggedFence(tag)
    requires AllSpace(w1) && AllSpace(g1) && AllSpace(g2) && AllSpace(w2)
    requires IsStripped(p)
    ensures Clean(w1 + (tag + (g1 + p + g2) + Fence) + w2, tag) == p
  {
    var inner := g1 + p + g2;
    var m := tag + inner + Fence;
    FencedIsStripped(tag, inner);
    StripPadded(w1, m, w2);
    TaggedStages(tag, inner);
    StripPadded(g1, p, g2);
    CleanStages(w1 + m + w2, tag, m, DropOpening(m, tag), inner);
  }

  /** Between a tagged opening fence and a closing fence: both go. */
  lemma TaggedStages(tag: string, inner: string)
    ensures DropClosing(DropOpening(tag + inner + Fence, tag)) == inner
  {
    assert tag + inner + Fence == tag + (inner + Fence);
    DropOpeningTagged(tag, inner + Fence);
    DropClosingFenced(inner);
  }

  /** A payload between bare fences comes back exactly, unless the opening
      fence and what follows it happen to spell the declared tag. */
  lemma CleanUnwrapsBare(w1: string, g1: string, p: string, g2: string, w2: string, tag: string)
    requires AllSpace(w1) && AllSpace(g1) && AllSpace(g2) && AllSpace(w2)
    requires IsStripped(p)
    requires !StartsWith(Fence + (g1 + p + g2) + Fence, tag)
    ensures Clean(w1 + (Fence + (g1 + p + g2) + Fence) + w2, tag) == p
  {
    var inner := g1 + p + g2;
    var m := Fence + inner + Fence;
    FencedIsStripped(Fence, inner);
    StripPadded(w1, m, w2);
    BareStages(inner, tag);
    StripPadded(g1, p, g2);
    CleanStages(w1 + m + w2, tag, m, DropOpening(m, tag), inner);
  }

  /** Between two bare fences, when the text does not start with the
      declared tag: both fences go. */
  lemma BareStages(inner: string, tag: string)
    requires !StartsWith(Fence + inner + Fence, tag)
    ensures DropClosing(DropOpening(Fence + inner + Fence, tag)) == inner
  {
    assert Fence + inner + Fence == Fence + (inner + Fence);
    DropOpeningBare(inner + Fence, tag);
    DropClosingFenced(inner);
  }

  /** A reply that opens a fence and never closes it loses only the
      opening fence. */
  lemma CleanUnwrapsUnclosed(w1: string, g1: string, p: string, w2: string, tag: string)
    requires AllSpace(w1) && AllSpace(g1) && AllSpace(w2)
    requires IsStripped(p) && p != [] && !EndsWith(p, Fence)
    requires !StartsWith(Fence + (g1 + p), tag)
    ensures Clean(w1 + (Fence + (g1 + p)) + w2, tag) == p
  {
    var inner := g1 + p;
    var m := Fence + inner;
    assert m[0] == Fence[0] && m[|m| - 1] == p[|p| - 1];
    StripPadded(w1, m, w2);
    DropOpeningBare(inner, tag);
    NoFenceAfterSpace(g1, p);
    assert DropClosing(inner) == inner;
    StripPadded(g1, p, []);
    assert g1 + p + [] == inner;
    CleanStages(w1 + m + w2, tag, m, inner, inner);
  }

  /** Whitespace in front of a text that does not end with a fence does not
      make it end with one. */
  lemma NoFenceAfterSpace(g: string, p: string)
    requires AllSpace(g) && p != [] && !EndsWith(p, Fence)
    ensures !EndsWith(g + p, Fence)
  {
    var q := g + p;
    if |q| >= 3 {
      if |p| >= 3 {
        assert q[|q| - 3..] == p[|p| - 3..];
      } else {
        assert q[|q| - 3] == g[|g| - 3 + |p|];
        assert q[|q| - 3..][0] == q[|q| - 3];
      }
    }
  }

  /** A reply that closes a fence it never opened loses only the closing
      fence. */
  lemma CleanUnwrapsClosing(w1: string, p: string, g: string, w2: string, tag: string)
    requires IsTaggedFence(tag)
    requires AllSpace(w1) && AllSpace(g) && AllSpace(w2)
    requires IsStripped(p) && p != []
    requires !StartsWith(p + g + Fence, Fence)
    ensures Clean(w1 + (p + g + Fence) + w2, tag) == p
  {
    var inner := p + g;
    var m := inner + Fence;
    assert m[0] == p[0] && m[|m| - 1] == Fence[2];
    StripPadded(w1, m, w2);
    TagStartsWithFence(m, tag);
    assert DropOpening(m, tag) == m;
    DropClosingFenced(inner);
    StripPadded([], p, g);
    assert [] + p + g == inner;
    CleanStages(w1 + m + w2, tag, m, m, inner);
  }

  /** A reply that opens with the declared tag and never closes the fence
      loses only the tag. */
  lemma CleanUnwrapsTaggedUnclosed(w1: string, tag: string, g1: string, p: string, w2: string)
    requires IsTaggedFence(tag)
    requires AllSpace(w1) && AllSpace(g1) && AllSpace(w2)
    requires IsStripped(p) && p != [] && !EndsWith(p, Fence)
    ensures Clean(w1 + (tag + (g1 + p)) + w2, tag) == p
  {
    var inner := g1 + p;
    var m := tag + inner;
    assert m[0] == tag[0] == Fence[0] && m[|m| - 1] == p[|p| - 1];
    StripPadded(w1, m, w2);
    DropOpeningTagged(tag, inner);
    NoFenceAfterSpace(g1, p);
    assert DropClosing(inner) == inner;
    StripPadded(g1, p, []);
    assert g1 + p + [] == inner;
    CleanStages(w1 + m + w2, tag, m, inner, inner);
  }

  /** The documented example: a fenced JSON object loses its fences. */
  lemma CleanJsonExample()
    ensures CleanJsonResponse("```json\n{\"a\":1}\n```") == "{\"a\":1}"
  {
    JsonExampleText();
    CleanUnwrapsTagged([], JsonFence, "\n", "{\"a\":1}", "\n", []);
  }

  lemma JsonExampleText()
    ensures [] + (JsonFence + ("\n" + "{\"a\":1}" + "\n") + Fence) + [] == "```json\n{\"a\":1}\n```"
  {
  }

  /** The tag is matched case-sensitively: an upper-case tag is not the
      declared one, so only the bare fence goes. */
  lemma CleanTagIsCaseSensitive()
    ensures CleanJsonResponse("```JSON x") == "JSON x"
  {
    UpperTagText();
    CleanUnwrapsUnclosed([], [], "JSON x", [], JsonFence);
  }

  lemma UpperTagText()
    ensures [] + (Fence + ([] + "JSON x")) + [] == "```JSON x"
    ensures !StartsWith(Fence + ([] + "JSON x"), JsonFence)
  {
    assert (Fence + ([] + "JSON x"))[3] == 'J';
  }

  /** A lone bare fence cleans to nothing. */
  lemma CleanLoneFence(tag: string)
    requires |tag| > |Fence|
    ensures Clean(Fence, tag) == []
  {
    StripStripped(Fence);
    StripStripped([]);
    assert DropOpening(Fence, tag) == [];
    CleanStages(Fence, tag, Fence, [], []);
  }

  /** A lone tagged fence cleans to nothing as well: the closing check only
      looks at what the opening removal left. */
  lemma CleanLoneTag(tag: string)
    requires IsStripped(tag)
    ensures Clean(tag, tag) == []
  {
    StripStripped(tag);
    DropOpeningWhole(tag);
    DropClosingEmpty();
    StripEmpty();
    CleanStages(tag, tag, tag, [], []);
  }

  lemma DropOpeningWhole(tag: string)
    ensures DropOpening(tag, tag) == []
  {
    assert tag[..|tag|] == tag;
  }

  lemma DropClosingEmpty()
    ensures DropClosing([]) == []
  {
  }

  lemma StripEmpty()
    ensures Strip([]) == []
  {
    StripStripped([]);
  }

  /** Cleaning is not idempotent: one fence pair goes per call, so a doubly
      fenced reply needs two. */
  lemma CleanNotIdempotent()
    ensures CleanJsonResponse("```\n```\n{}\n```\n```") == "```\n{}\n```"
    ensures CleanJsonResponse("```\n{}\n```") == "{}"
    ensures CleanJsonResponse(CleanJsonResponse("```\n```\n{}\n```\n```"))
         != CleanJsonResponse("```\n```\n{}\n```\n```")
  {
    DoublyFencedText();
    CleanUnwrapsBare([], "\n", "```\n{}\n```", "\n", [], JsonFence);
    SinglyFencedText();
    CleanUnwrapsBare([], "\n", "{}", "\n", [], JsonFence);
  }

  lemma DoublyFencedText()
    ensures [] + (Fence + ("\n" + "```\n{}\n```" + "\n") + Fence) + [] == "```\n```\n{}\n```\n```"
    ensures !StartsWith(Fence + ("\n" + "```\n{}\n```" + "\n") + Fence, JsonFence)
    ensures IsStripped("```\n{}\n```")
  {
    assert (Fence + ("\n" + "```\n{}\n```" + "\n") + Fence)[3] == '\n';
  }

  lemma SinglyFencedText()
    ensures [] + (Fence + ("\n" + "{}" + "\n") + Fence) + [] == "```\n{}\n```"
    ensures !StartsWith(Fence + ("\n" + "{}" + "\n") + Fence, JsonFence)
  {
    assert (Fence + ("\n" + "{}" + "\n") + Fence)[3] == '\n';
  }

  /** The builder's reply goes through the HTML sanitizer, so a reply
      fenced as JSON keeps the word "json". */
  lemma CleanHtmlOnJsonReply()
    ensures CleanHtmlResponse("```json\n[]\n```") == "json\n[]"
  {
    JsonReplyText();
    CleanUnwrapsBare([], [], "json\n[]", "\n", [], HtmlFence);
  }

  lemma JsonReplyText()
    ensures [] + (Fence + ([] + "json\n[]" + "\n") + Fence) + [] == "```json\n[]\n```"
    ensures !StartsWith(Fence + ([] + "json\n[]" + "\n") + Fence, HtmlFence)
  {
    assert (Fence + ([] + "json\n[]" + "\n") + Fence)[3] == 'j';
  }

  // ---------------------------------------------------------------------
  // Request assembly (call_claude)
  // ---------------------------------------------------------------------

  /** An inline file: its media type and the bytes that travel base64
      encoded. */
  datatype Source = Base64Source(mediaType: string, payload: seq<byte>)

  datatype ContentBlock =
    | DocumentBlock(source: Source)
    | ImageBlock(source: Source)
    | TextBlock(text: string)

  datatype Message = Message(role: string, content: seq<ContentBlock>)

  /** The JSON body handed to `invoke_model`. */
  datatype RequestBody = RequestBody(anthropicVersion: string, maxTokens: int, messages: seq<Message>)

  /** A file handed to `call_claude`: its path and the bytes read from it. */
  datatype FileRef = FileRef(path: string, bytes: seq<byte>)

  const AnthropicVersion: string := "bedrock-2023-05-31"
  const MaxTokens: int := 4000
  const UserRole: string := "user"
  const PdfExtension: string := ".pdf"
  const PdfMediaType: string := "application/pdf"
  const DefaultImageMediaType: string := "image/jpeg"

  /** The image extensions `call_claude` knows, with their media types. */
  const ImageMediaTypes: map<string, string> :=
    map[".jpg" := "image/jpeg", ".jpeg" := "image/jpeg", ".png" := "image/png",
        ".gif" := "image/gif", ".webp" := "image/webp"]

  /** Every media type a request can carry. */
  const MediaTypes: set<string> :=
    {PdfMediaType, "image/jpeg", "image/png", "image/gif", "image/webp"}

  /** `Path(path).suffix.lower()` */
  function Extension(path: string): (r: string)
    ensures r == [] || (|r| >= 2 && r[0] == '.')
    ensures |r| <= |path|
  {
    Lower(Suffix(path))
  }

  /** The media type of an image with extension `ext`: the table entry, or
      JPEG for anything the table does not know. */
  function ImageMediaType(ext: string): (r: string)
    ensures ext in ImageMediaTypes ==> r == ImageMediaTypes[ext]
    ensures ext !in ImageMediaTypes ==> r == DefaultImageMediaType
    ensures r in MediaTypes && r != PdfMediaType
  {
    if ext in ImageMediaTypes then ImageMediaTypes[ext] else DefaultImageMediaType
  }

  /** The content block that carries an attached file. */
  function Attachment(file: FileRef): (b: ContentBlock)
    ensures b.DocumentBlock? <==> Extension(file.path) == PdfExtension
    ensures b.DocumentBlock? ==> b.source.mediaType == PdfMediaType
    ensures b.ImageBlock? ==> b.source.mediaType == ImageMediaType(Extension(file.path))
    ensures !b.TextBlock? && b.source.payload == file.bytes
    ensures b.source.mediaType in MediaTypes
  {
    var ext := Extension(file.path);
    if ext == PdfExtension then DocumentBlock(Base64Source(PdfMediaType, file.bytes))
    else ImageBlock(Base64Source(ImageMediaType(ext), file.bytes))
  }

  /** `if file_path:` -- no argument and the empty path both mean no file. */
  predicate Attaches(file: Option<FileRef>) {
    file.Some? && file.value.path != ""
  }

  /** The request `call_claude` sends: one user message whose content is the
      attachment, when there is one, followed by the prompt. */
  function Request(prompt: string, file: Option<FileRef>): (body: RequestBody)
    ensures body.anthropicVersion == AnthropicVersion && body.maxTokens == MaxTokens
    ensures |body.messages| == 1 && body.messages[0].role == UserRole
    ensures var content := body.messages[0].content;
      && |content| == (if Attaches(file) then 2 else 1)
      && content[|content| - 1] == TextBlock(prompt)
      && (Attaches(file) ==> content[0] == Attachment(file.value))
      && (forall k :: 0 <= k < |content| - 1 ==> !content[k].TextBlock?)
  {
    var attached := if Attaches(file) then [Attachment(file.value)] else [];
    ContentShape(attached, prompt);
    RequestBody(AnthropicVersion, MaxTokens, [Message(UserRole, attached + [TextBlock(prompt)])])
  }

  /** The prompt block goes after the attachments, which are not text. */
  lemma ContentShape(attached: seq<ContentBlock>, prompt: string)
    requires forall k :: 0 <= k < |attached| ==> !attached[k].TextBlock?
    ensures var content := attached + [TextBlock(prompt)];
      && |content| == |attached| + 1
      && content[|content| - 1] == TextBlock(prompt)
      && content[..|attached|] == attached
      && (forall k :: 0 <= k < |content| - 1 ==> !content[k].TextBlock?)
  {
    var content := attached + [TextBlock(prompt)];
    assert content[..|attached|] == attached;
  }

  /** The request as `call_claude` builds it, by appending to a list. */
  method BuildRequest(prompt: string, file: Option<FileRef>) returns (body: RequestBody)
    ensures body == Request(prompt, file)
  {
    var content: seq<ContentBlock> := [];
    if file.Some? && file.value.path != "" {
      var extension := Extension(file.value.path);
      if extension == PdfExtension {
        content := content + [DocumentBlock(Base64Source(PdfMediaType, file.value.bytes))];
      } else {
        var mediaType := ImageMediaType(extension);
        content := content + [ImageBlock(Base64Source(mediaType, file.value.bytes))];
      }
      assert content == [Attachment(file.value)];
    }
    content := content + [TextBlock(prompt)];
    body := RequestBody(AnthropicVersion, MaxTokens, [Message(UserRole, content)]);
  }

  /** The attachment depends on the case of nothing but the extension: a
      path and its lower-cased spelling get the same block. */
  lemma AttachmentIgnoresCase(path: string, bytes: seq<byte>)
    ensures Attachment(FileRef(Lower(path), bytes)) == Attachment(FileRef(path, bytes))
  {
    SuffixOfLower(path);
    LowerIdempotent(Suffix(path));
  }

  /** Only the final component matters: a directory in front of a file name
      that has a suffix does not change the attachment. */
  lemma AttachmentIgnoresDirectory(dir: string, name: string, bytes: seq<byte>)
    requires Suffix(name) != []
    ensures Attachment(FileRef(dir + name, bytes)) == Attachment(FileRef(name, bytes))
  {
    SuffixOfConcat(dir, name);
  }

  /** Every known image extension gets its own media type, the two JPEG
      spellings share one, and the PDF extension is not among them. */
  lemma ImageMediaTypeTable()
    ensures ImageMediaType(".jpg") == "image/jpeg" && ImageMediaType(".jpeg") == "image/jpeg"
    ensures ImageMediaType(".png") == "image/png" && ImageMediaType(".gif") == "image/gif"
    ensures ImageMediaType(".webp") == "image/webp"
    ensures PdfExtension !in ImageMediaTypes
  {
  }

  /** A plain name with a stem and a dot-free extension has that
      extension, lower-cased. */
  lemma ExtensionOfStem(stem: string, ext: string)
    requires '/' !in stem && '/' !in ext && '.' !in ext
    requires stem != [] && ext != []
    ensures Extension(stem + ("." + ext)) == Lower("." + ext)
  {
    SuffixOfStemAndExtension(stem, ext);
  }

  /** An upper-case ".PDF" is still sent as a PDF document. */
  lemma UpperCasePdfIsDocument(stem: string, bytes: seq<byte>)
    requires '/' !in stem && stem != []
    ensures Attachment(FileRef(stem + ".PDF", bytes)) == DocumentBlock(Base64Source(PdfMediaType, bytes))
  {
    UpperCasePdfExtension(stem);
    PdfAttachment(stem + ".PDF", bytes);
  }

  lemma UpperCasePdfExtension(stem: string)
    requires '/' !in stem && stem != []
    ensures Extension(stem + ".PDF") == PdfExtension
  {
    ExtensionOfStem(stem, "PDF");
    LowerPdf();
  }

  lemma LowerPdf()
    ensures "." + "PDF" == ".PDF"
    ensures Lower(".PDF") == PdfExtension
  {
    assert Lower(".PDF")[1] == 'p' && Lower(".PDF")[2] == 'd' && Lower(".PDF")[3] == 'f';
  }

  /** Any path whose extension reads ".pdf" is sent as a PDF document. */
  lemma PdfAttachment(path: string, bytes: seq<byte>)
    requires Extension(path) == PdfExtension
    ensures Attachment(FileRef(path, bytes)) == DocumentBlock(Base64Source(PdfMediaType, bytes))
  {
  }

  /** A file without any suffix is sent as a JPEG image, not refused. */
  lemma NoSuffixIsJpeg(name: string, bytes: seq<byte>)
    requires '.' !in name && '/' !in name
    ensures Attachment(FileRef(name, bytes)) == ImageBlock(Base64Source(DefaultImageMediaType, bytes))
  {
    NoSuffixExtension(name);
  }

  /** Any extension that is neither ".pdf" nor in the image table is sent
      as a JPEG image, not refused. */
  lemma UnknownExtensionIsJpeg(path: string, bytes: seq<byte>)
    requires Extension(path) != PdfExtension && Extension(path) !in ImageMediaTypes
    ensures Attachment(FileRef(path, bytes)) == ImageBlock(Base64Source(DefaultImageMediaType, bytes))
  {
  }

  /** "stem.bmp", for instance, goes out as image/jpeg. */
  lemma BitmapIsJpeg(stem: string, bytes: seq<byte>)
    requires '/' !in stem && stem != []
    ensures Attachment(FileRef(stem + ".bmp", bytes)) == ImageBlock(Base64Source(DefaultImageMediaType, bytes))
  {
    BitmapExtension(stem);
    UnknownExtensionIsJpeg(stem + ".bmp", bytes);
  }

  lemma BitmapExtension(stem: string)
    requires '/' !in stem && stem != []
    ensures Extension(stem + ".bmp") == ".bmp"
    ensures ".bmp" != PdfExtension && ".bmp" !in ImageMediaTypes
  {
    ExtensionOfStem(stem, "bmp");
    LowerBmp();
  }

  lemma LowerBmp()
    ensures "." + "bmp" == ".bmp"
    ensures Lower(".bmp") == ".bmp"
  {
    assert Lower(".bmp")[1] == 'b' && Lower(".bmp")[2] == 'm' && Lower(".bmp")[3] == 'p';
  }

  lemma NoSuffixExtension(name: string)
    requires '.' !in name && '/' !in name
    ensures Extension(name) == []
  {
    NameOfPlain(name);
    NoSuffixWithoutDot(name);
  }

  // ---------------------------------------------------------------------
  // Prompts and the two-stage pipeline (analyze_form, build_json_form,
  // convert_form)
  // ---------------------------------------------------------------------

  /** The two fixed instruction texts, ANALYZER_PROMPT and BUILDER_PROMPT. */
  datatype Prompts = Prompts(analyzer: string, builder: string)

  /** The text between the builder instructions and the field specifications. */
  const SpecsHeader: string := "\n\nHere are the field specifications:\n\n"

  /** The prompt of the second stage: the builder instructions, a header,
      then the field specifications. */
  function BuilderPrompt(builder: string, specs: string): (r: string)
    ensures StartsWith(r, builder + SpecsHeader)
    ensures EndsWith(r, specs)
    ensures |r| == |builder| + |SpecsHeader| + |specs|
  {
    builder + SpecsHeader + specs
  }

  /** The specifications can be read back from the prompt, so different
      specifications give different prompts. */
  lemma BuilderPromptInjective(builder: string, s1: string, s2: string)
    requires BuilderPrompt(builder, s1) == BuilderPrompt(builder, s2)
    ensures s1 == s2
  {
    var n := |builder| + |SpecsHeader|;
    assert s1 == BuilderPrompt(builder, s1)[n..];
    assert s2 == BuilderPrompt(builder, s2)[n..];
  }

  /** `call_claude`: send the request and return the reply text, or the
      exception the call raised. The model stands for `invoke_model` together
      with the decoding of its reply. */
  function CallClaude(prompt: string, file: Option<FileRef>, model: RequestBody -> Outcome<string>): Outcome<string> {
    model(Request(prompt, file))
  }

  /** `analyze_form`: the image with the analyzer prompt, reply cleaned as
      JSON. */
  function AnalyzeForm(image: FileRef, prompts: Prompts, model: RequestBody -> Outcome<string>): (r: Outcome<string>)
    ensures r.Returned? ==> IsStripped(r.value)
  {
    match CallClaude(prompts.analyzer, Some(image), model)
    case Returned(reply) => Returned(CleanJsonResponse(reply))
    case Raised(e) => Raised(e)
  }

  /** `build_json_form`: the specifications with the builder prompt and no
      file, reply cleaned as HTML. */
  function BuildJsonForm(specs: string, prompts: Prompts, model: RequestBody -> Outcome<string>): (r: Outcome<string>)
    ensures r.Returned? ==> IsStripped(r.value)
  {
    match CallClaude(BuilderPrompt(prompts.builder, specs), None, model)
    case Returned(reply) => Returned(CleanHtmlResponse(reply))
    case Raised(e) => Raised(e)
  }

  /** `convert_form` without an output path: analysis, then building. */
  function ConvertForm(image: FileRef, prompts: Prompts, model: RequestBody -> Outcome<string>): (r: Outcome<string>)
    ensures r.Returned? ==> IsStripped(r.value)
  {
    match AnalyzeForm(image, prompts, model)
    case Returned(specs) => BuildJsonForm(specs, prompts, model)
    case Raised(e) => Raised(e)
  }

  /** What `convert_form` does, call by call: the first request carries the
      image and the analyzer prompt; the second carries no file and a prompt
      that ends with the cleaned analysis; the result is the cleaned second
      reply, a piece of it; the first exception raised is the outcome. */
  lemma ConvertFormCalls(image: FileRef, prompts: Prompts, model: RequestBody -> Outcome<string>)
    ensures var first := model(Request(prompts.analyzer, Some(image)));
      && (first.Raised? ==> ConvertForm(image, prompts, model) == first)
      && (first.Returned? ==>
            var second := model(Request(BuilderPrompt(prompts.builder, CleanJsonResponse(first.value)), None));
            && (second.Raised? ==> ConvertForm(image, prompts, model) == second)
            && (second.Returned? ==>
                  && ConvertForm(image, prompts, model) == Returned(CleanHtmlResponse(second.value))
                  && IsSlice(CleanHtmlResponse(second.value), second.value)))
  {
    var first := model(Request(prompts.analyzer, Some(image)));
    if first.Returned? {
      var second := model(Request(BuilderPrompt(prompts.builder, CleanJsonResponse(first.value)), None));
      if second.Returned? {
        CleanIsSlice(second.value, HtmlFence);
      }
    }
  }

  /** The builder request never carries a file, whatever the analysis said. */
  lemma BuilderRequestHasNoFile(prompts: Prompts, specs: string)
    ensures Request(BuilderPrompt(prompts.builder, specs), None).messages[0].content
         == [TextBlock(BuilderPrompt(prompts.builder, specs))]
  {
  }
}
