/** The image-editing flow: an uploaded source image read as a base64
    data URL, a prompt, one request to the image service, the resulting
    image URL, and the file name offered for download. */
module ImageEditor {
  import opened Common
  import opened JsString

  const DEFAULT_PROMPT := "Add a retro filter"
  const READ_FAILED := "Could not read the selected file."
  const EDIT_INPUT_REQUIRED := "Please upload an image and enter an editing prompt."
  const EDIT_FAILED := "Failed to edit image. Please try again."
  const DEFAULT_EXTENSION := "png"
  const DOWNLOAD_PREFIX := "edited-image."

  // ---------------------------------------------------------------
  // Payload extraction in fileToB64: result.split(',')[1]
  // ---------------------------------------------------------------

  /** The base64 alphabet of section 4 of RFC 4648, with its `=` padding. */
  predicate IsBase64Char(c: char)
  {
    'A' <= c <= 'Z' || 'a' <= c <= 'z' || '0' <= c <= '9' || c == '+' || c == '/' || c == '='
  }

  predicate IsBase64Text(s: string)
  {
    forall i :: 0 <= i < |s| ==> IsBase64Char(s[i])
  }

  /** The `data:<mediatype>;base64,<data>` URL of section 3 of RFC 2397,
      as `readAsDataURL` produces it. */
  function Base64DataUrl(mediaType: string, data: string): (url: string)
    ensures ',' !in mediaType && ',' !in data ==>
      forall i :: 0 <= i < |url| && url[i] == ',' ==> i == 12 + |mediaType|
  {
    "data:" + mediaType + ";base64," + data
  }

  /** `result.split(',')[1]`: the text between the first and the second
      comma, or None (JavaScript's `undefined`) when there is no comma. */
  function Payload(dataUrl: string): (payload: Option<string>)
    ensures payload.Some? <==> ',' in dataUrl
    ensures payload.Some? ==> ',' !in payload.value
  {
    At(Split(dataUrl, ','), 1)
  }

  /** Whatever follows a comma-free segment that is closed by a comma or
      by the end of the text, the segment after the first comma is the
      payload. */
  lemma PayloadBetweenCommas(head: string, payload: string, tail: string)
    requires ',' !in head && ',' !in payload
    requires tail == [] || tail[0] == ','
    ensures Payload(head + "," + payload + tail) == Some(payload)
  {
    SplitSecondPiece(head, payload, tail, ',');
  }

  /** Round trip: the payload read back from a base64 data URL is the
      encoded data that was put in. */
  lemma PayloadOfDataUrl(mediaType: string, data: string)
    requires ',' !in mediaType
    requires IsBase64Text(data)
    ensures Payload(Base64DataUrl(mediaType, data)) == Some(data)
  {
    assert ',' !in data by {
      forall i | 0 <= i < |data| ensures data[i] != ',' {
        assert IsBase64Char(data[i]);
      }
    }
    var head := "data:" + mediaType + ";base64";
    assert ',' !in head by {
      forall i | 0 <= i < |head| ensures head[i] != ',' {
        if 5 <= i < 5 + |mediaType| {
          assert head[i] == mediaType[i - 5];
        }
      }
    }
    PayloadBetweenCommas(head, data, "");
    assert Base64DataUrl(mediaType, data) == head + "," + data + "";
  }

  /** Every payload sits between the first comma and the next comma or
      the end of the text. */
  lemma PayloadShape(dataUrl: string)
    requires ',' in dataUrl
    ensures exists head, tail ::
      dataUrl == head + "," + Payload(dataUrl).value + tail &&
      ',' !in head && (tail == [] || tail[0] == ',')
  {
    SplitSecondPieceShape(dataUrl, ',');
    var pieces := Split(dataUrl, ',');
    var tail := Rest(pieces[2..], ',');
    assert dataUrl == pieces[0] + "," + pieces[1] + tail;
  }

  // ---------------------------------------------------------------
  // Extension of the edited image: url.split(';')[0].split('/')[1] || 'png'
  // ---------------------------------------------------------------

  /** The download extension taken from the edited image's URL: the text
      after the first `/` of the part before the first `;`, up to the next
      `/`; `png` when that text is missing or empty. */
  function Extension(url: string): (ext: string)
    ensures ext != ""
    ensures ';' !in ext && '/' !in ext
  {
    var mediaPart := Split(url, ';')[0];
    match At(Split(mediaPart, '/'), 1)
    case Some(e) =>
      if e != "" then
        assert ';' !in e by {
          if ';' in e {
            SplitPieceChars(mediaPart, '/', 1, ';');
          }
        }
        e
      else DEFAULT_EXTENSION
    case None => DEFAULT_EXTENSION
  }

  /** `edited-image.${extension}`. */
  function DownloadFileName(url: string): (name: string)
    ensures |name| > |DOWNLOAD_PREFIX|
    ensures name[..|DOWNLOAD_PREFIX|] == DOWNLOAD_PREFIX
    ensures name[|DOWNLOAD_PREFIX|..] == Extension(url)
    ensures '/' !in name && ';' !in name
  {
    DOWNLOAD_PREFIX + Extension(url)
  }

  /** The extension is read back from any URL of the shape
      `<a>/<ext>` followed by nothing, a `;` or a `/`. */
  lemma ExtensionOfMediaType(a: string, ext: string, rest: string)
    requires ';' !in a && '/' !in a
    requires ';' !in ext && '/' !in ext && ext != ""
    requires rest == [] || rest[0] == ';' || rest[0] == '/'
    ensures Extension(a + "/" + ext + rest) == ext
  {
    var url := a + "/" + ext + rest;
    var tail := Split(rest, ';')[0];
    assert tail == [] || tail[0] == '/' by {
      if rest == [] || rest[0] == ';' {
        SplitFirstPiece("", rest, ';');
      } else if tail != [] {
        SplitFirstPieceShape(rest, ';');
        assert tail[0] == rest[0];
      }
    }
    assert Split(url, ';')[0] == a + ['/'] + ext + tail by {
      var x := a + "/" + ext;
      assert ';' !in x by {
        assert x == a + ['/'] + ext;
      }
      assert url == x + rest;
      SplitPrefix(x, rest, ';');
    }
    SplitSecondPiece(a, ext, tail, '/');
  }

  /** The part before the first `;`, split at `/`: its first two pieces
      sit at the front of the URL, followed by nothing, a `/` or a `;`. */
  /** Sequence regrouping behind `MediaPartShape`, kept apart so that
      its proof does not see the definition of `Split`. */
  lemma Regroup(url: string, m: string, outer: string, p0: string, p1: string, inner: string)
    requires url == m + outer && m == p0 + "/" + p1 + inner && ';' !in m
    ensures url == p0 + "/" + p1 + (inner + outer) && ';' !in p0
  {
    assert url == p0 + "/" + p1 + (inner + outer);
    forall i | 0 <= i < |p0| ensures p0[i] != ';' {
      assert p0[i] == m[i];
    }
  }

  lemma MediaPartShape(url: string)
    requires |Split(Split(url, ';')[0], '/')| >= 2
    ensures var mediaPart := Split(url, ';')[0];
      var pieces := Split(mediaPart, '/');
      var rest := Rest(pieces[2..], '/') + Rest(Split(url, ';')[1..], ';');
      url == pieces[0] + "/" + pieces[1] + rest && ';' !in pieces[0] &&
      (rest == [] || rest[0] == ';' || rest[0] == '/')
  {
    var mediaPart := Split(url, ';')[0];
    var pieces := Split(mediaPart, '/');
    var inner := Rest(pieces[2..], '/');
    var outer := Rest(Split(url, ';')[1..], ';');
    var rest := inner + outer;
    assert url == mediaPart + outer by {
      SplitFirstPieceShape(url, ';');
    }
    assert mediaPart == pieces[0] + ['/'] + pieces[1] + inner by {
      SplitSecondPieceShape(mediaPart, '/');
    }
    Regroup(url, mediaPart, outer, pieces[0], pieces[1], inner);
    if inner != [] {
      assert rest[0] == inner[0];
    }
  }

  /** Conversely, every extension other than the default is read from
      such a position of the URL; `a` and `rest` are that position. */
  lemma ExtensionShape(url: string) returns (a: string, rest: string)
    ensures Extension(url) == DEFAULT_EXTENSION ||
      (url == a + "/" + Extension(url) + rest &&
       ';' !in a && '/' !in a && (rest == [] || rest[0] == ';' || rest[0] == '/'))
  {
    a, rest := "", "";
    var mediaPart := Split(url, ';')[0];
    var pieces := Split(mediaPart, '/');
    if |pieces| >= 2 && pieces[1] != "" {
      MediaPartShape(url);
      a := pieces[0];
      rest := Rest(pieces[2..], '/') + Rest(Split(url, ';')[1..], ';');
      assert Extension(url) == pieces[1];
    }
  }

  /** The image URLs the service hands back carry their media type;
      `data:image/webp;base64,...` is saved with extension `webp`. */
  lemma WebpExtension(data: string)
    ensures Extension("data:image/webp;base64," + data) == "webp"
    ensures DownloadFileName("data:image/webp;base64," + data) == "edited-image.webp"
  {
    assert "data:image/webp;base64," + data == "data:image" + "/" + "webp" + (";base64," + data);
    ExtensionOfMediaType("data:image", "webp", ";base64," + data);
  }

  /** A URL with no `/` before its first `;` is saved as `png`. */
  lemma NoSubtypeFallsBack(url: string)
    requires '/' !in Split(url, ';')[0]
    ensures Extension(url) == DEFAULT_EXTENSION
  {
  }

  // ---------------------------------------------------------------
  // The component's state cells and its two handlers.
  // ---------------------------------------------------------------

  /** The first entry of the file input: its declared media type and the
      object URL the browser assigns to it. */
  datatype SelectedFile = SelectedFile(mimeType: string, objectUrl: string)

  /** How `readAsDataURL` settled: `onload` with the reader's result, or `onerror`. */
  datatype ReadResult = Loaded(dataUrl: string) | ReadError

  /** The `sourceImage` cell; `base64` is None where `split(',')[1]` is undefined. */
  datatype SourceImage = SourceImage(url: string, base64: Option<string>, mimeType: string)

  /** The arguments of the `editImage` call. */
  datatype EditRequest = EditRequest(base64: Option<string>, mimeType: string, prompt: string)

  /** One ImageEditor component: its `useState` cells as fields. Each
      async handler is split at its `await` into a Begin and a Complete
      method; a Handle method runs both in sequence. */
  class Editor {
    var sourceImage: Option<SourceImage>
    var prompt: string
    var editedImageUrl: string
    var isLoading: bool
    var error: Option<string>

    /** While an edit is in flight no edited image is shown. The error may
        be set meanwhile, because the file input stays enabled. */
    predicate Valid()
      reads this
    {
      isLoading ==> editedImageUrl == ""
    }

    constructor ()
      ensures Valid()
      ensures sourceImage == None && prompt == DEFAULT_PROMPT && editedImageUrl == ""
      ensures !isLoading && error == None
    {
      sourceImage := None;
      prompt := DEFAULT_PROMPT;
      editedImageUrl := "";
      isLoading := false;
      error := None;
    }

    /** The prompt input's `onChange`. */
    method SetPrompt(text: string)
      requires Valid()
      modifies this`prompt
      ensures Valid()
      ensures prompt == text
    {
      prompt := text;
    }

    /** The edit button is enabled exactly when
        `disabled={isLoading || !sourceImage}` is false. */
    predicate CanEdit()
      reads this
    {
      !isLoading && sourceImage.Some?
    }

    /** `handleFileChange` up to the file read. Returns whether a read
        was started. */
    method BeginFileChange(file: Option<SelectedFile>) returns (reading: bool)
      requires Valid()
      modifies this`editedImageUrl, this`error
      ensures Valid()
      ensures reading == file.Some?
      ensures file.None? ==> editedImageUrl == old(editedImageUrl) && error == old(error)
      ensures file.Some? ==> editedImageUrl == "" && error == None
    {
      if file.None? {
        return false;
      }
      editedImageUrl := "";
      error := None;
      reading := true;
    }

    /** `handleFileChange` after `fileToB64` settled. The recorded media
        type is the file's declared type, not one parsed from the URL. */
    method CompleteFileChange(file: SelectedFile, read: ReadResult)
      requires Valid()
      modifies this`sourceImage, this`error
      ensures Valid()
      ensures read.Loaded? ==>
        sourceImage == Some(SourceImage(file.objectUrl, Payload(read.dataUrl), file.mimeType)) &&
        error == old(error)
      ensures read.ReadError? ==> sourceImage == old(sourceImage) && error == Some(READ_FAILED)
    {
      match read {
        case Loaded(dataUrl) =>
          sourceImage := Some(SourceImage(file.objectUrl, Payload(dataUrl), file.mimeType));
        case ReadError =>
          error := Some(READ_FAILED);
      }
    }

    /** The whole of `handleFileChange` when the read settles with `read`. */
    method HandleFileChange(file: Option<SelectedFile>, read: ReadResult)
      requires Valid()
      modifies this`editedImageUrl, this`error, this`sourceImage
      ensures Valid()
      ensures isLoading == old(isLoading) && prompt == old(prompt)
      ensures file.None? ==>
        sourceImage == old(sourceImage) && editedImageUrl == old(editedImageUrl) && error == old(error)
      ensures file.Some? ==> editedImageUrl == ""
      ensures file.Some? && read.Loaded? ==>
        sourceImage == Some(SourceImage(file.value.objectUrl, Payload(read.dataUrl), file.value.mimeType)) &&
        error == None
      ensures file.Some? && read.ReadError? ==>
        sourceImage == old(sourceImage) && error == Some(READ_FAILED)
    {
      var reading := BeginFileChange(file);
      if reading {
        CompleteFileChange(file.value, read);
      }
    }

    /** `handleEdit` up to the service call. Returns the arguments passed
        to the service, or None when validation stopped it before any call. */
    method BeginEdit() returns (request: Option<EditRequest>)
      requires Valid() && !isLoading
      modifies this`isLoading, this`error, this`editedImageUrl
      ensures Valid()
      ensures old(sourceImage).None? || old(prompt) == "" ==>
        request == None && error == Some(EDIT_INPUT_REQUIRED) &&
        isLoading == old(isLoading) && editedImageUrl == old(editedImageUrl)
      ensures old(sourceImage).Some? && old(prompt) != "" ==>
        request == Some(EditRequest(old(sourceImage).value.base64, old(sourceImage).value.mimeType, old(prompt))) &&
        isLoading && error == None && editedImageUrl == ""
      ensures old(CanEdit()) && old(prompt) != "" ==> request.Some?
      ensures request.Some? ==> !CanEdit()
    {
      if sourceImage.None? || prompt == "" {
        error := Some(EDIT_INPUT_REQUIRED);
        return None;
      }
      isLoading := true;
      error := None;
      editedImageUrl := "";
      request := Some(EditRequest(sourceImage.value.base64, sourceImage.value.mimeType, prompt));
    }

    /** `handleEdit` after the service call settled: the success or failure
        branch, then the `finally` that clears loading. */
    method CompleteEdit(outcome: Outcome)
      requires Valid() && isLoading
      modifies this`isLoading, this`error, this`editedImageUrl
      ensures Valid() && !isLoading
      ensures sourceImage == old(sourceImage) && prompt == old(prompt)
      ensures outcome.Success? ==> editedImageUrl == outcome.url && error == old(error)
      ensures outcome.Failure? ==> editedImageUrl == "" && error == Some(EDIT_FAILED)
      ensures CanEdit() <==> sourceImage.Some?
    {
      match outcome {
        case Success(url) =>
          editedImageUrl := url;
        case Failure =>
          error := Some(EDIT_FAILED);
      }
      isLoading := false;
    }

    /** The whole of `handleEdit` when the service settles with `outcome`. */
    method HandleEdit(outcome: Outcome) returns (request: Option<EditRequest>)
      requires Valid() && !isLoading
      modifies this`isLoading, this`error, this`editedImageUrl
      ensures Valid() && !isLoading
      ensures sourceImage == old(sourceImage) && prompt == old(prompt)
      ensures old(sourceImage).None? || old(prompt) == "" ==>
        request == None && error == Some(EDIT_INPUT_REQUIRED) && editedImageUrl == old(editedImageUrl)
      ensures old(sourceImage).Some? && old(prompt) != "" ==>
        request == Some(EditRequest(old(sourceImage).value.base64, old(sourceImage).value.mimeType, old(prompt)))
      ensures old(sourceImage).Some? && old(prompt) != "" && outcome.Success? ==>
        editedImageUrl == outcome.url && error == None
      ensures old(sourceImage).Some? && old(prompt) != "" && outcome.Failure? ==>
        editedImageUrl == "" && error == Some(EDIT_FAILED)
      ensures request.Some? ==> CanEdit()
    {
      request := BeginEdit();
      if request.Some? {
        CompleteEdit(outcome);
      }
    }

    /** `handleDownload`: nothing without an edited image; otherwise a save
        of it under `edited-image.<extension>`. */
    method Download() returns (save: Option<Save>)
      ensures editedImageUrl == "" ==> save == None
      ensures editedImageUrl != "" ==> save == Some(Save(editedImageUrl, DownloadFileName(editedImageUrl)))
    {
      if editedImageUrl == "" {
        return None;
      }
      save := Some(Save(editedImageUrl, DownloadFileName(editedImageUrl)));
    }
  }
}
