# AI Image Studio: request flows and download names

A model of the two image flows of AI Image Studio, a React front end for
a generative-image service.

- **ImageGenerator** keeps four state cells: `prompt`, `imageUrl`,
  `isLoading` and `error`. `handleGenerate` validates the prompt,
  marks the request as loading, awaits the service, stores the image URL
  or a fixed error message, and clears loading in `finally`.
  `handleDownload` saves the image under a name derived from the prompt.
- **ImageEditor** adds a `sourceImage` cell. `handleFileChange` reads the
  chosen file as a base64 data URL and keeps the text between its first
  comma and the next comma (or the end) as the payload. `handleEdit` works like `handleGenerate`, with the
  source image as an extra input. `handleDownload` takes the file
  extension from the edited image's URL.

Each component is a Dafny class whose fields are its state cells. Each
async handler is split at its `await` into a `Begin…` method and a
`Complete…` method. The `Complete…` method takes the settled result as a
parameter: `Outcome` (`Success(url)` or `Failure`) for the image service,
and `ReadResult` for the file reader. A `Handle…` method runs both steps
in sequence. `BeginGenerate` and `BeginEdit` return the request they
hand to the service; `None` means validation stopped it and no call was
made. `BeginFileChange` returns a `bool` saying whether a file read was
started. The buttons' `disabled` expressions are negated by the predicates
`Generator.CanGenerate` and `Editor.CanEdit`. The methods state when a
button goes off (a dispatched request) and when it comes back (after the
`finally`). Starting a request requires `!isLoading`, because the
button is the only guard against a second submission; the handlers
themselves never check it. Each class has a `Valid()` invariant that
every method keeps.

The string derivations are total functions:

- the sanitised base name (`FileBaseName`);
- the data-URL payload (`Payload`);
- the download extension (`Extension`).

They are built on a model of JavaScript's `String.prototype.split` with a
one-character separator (`JsString.Split`). Its partner `Join` is proved
to be its inverse in both directions.

Modules:

- `common.dfy`: `Option`, `Outcome`, `Save`, `Min`.
- `js_string.dfy`: `split`, array indexing, `join`.
- `image_generator.dfy`: the generator flow and its file-name sanitiser.
- `image_editor.dfy`: the payload extraction, the extension rule and the
  editor flow.

Points of the code's behaviour worth stating outright:

- **Symbol-only prompts.** Only the empty prompt falls back to
  `generated-image`. A prompt made only of symbols does not: `"!!!"`
  becomes `"___"` (`SymbolsBecomeUnderscores`).
- **Underscores.** The sanitiser keeps one underscore for every character
  that is not an ASCII letter or digit; it does not drop them.
- **Extra submissions.** No handler rejects a submission while one is
  pending; only the disabled button prevents it, and the model states
  this as a precondition.
- **Errors.** Every failure shows one fixed message, and the model stores
  exactly those strings.

The generator derives the download name from the *current* prompt. The
text area stays editable after generation, so the name can differ from
the prompt that produced the image. `Generator.Download` states this.

## Model

| member | source | states |
|---|---|---|
| `JsString.Split` | components/ImageEditor.tsx:11 | `split` with a one-character separator: there is at least one piece, no piece contains the separator, and there is exactly one piece exactly when the separator does not occur |
| `JsString.JoinSplit` | components/ImageEditor.tsx:11 | joining the pieces of `split` with the separator restores the original string |
| `JsString.SplitJoin` | components/ImageEditor.tsx:11 | splitting a join of separator-free pieces gives back those pieces |
| `JsString.SplitPieceChars` | components/ImageEditor.tsx:65 | every character of a piece occurs in the split string |
| `JsString.SplitSecondPiece` | components/ImageEditor.tsx:11 | the text between the first separator and the next separator (or the end) is piece 1 |
| `JsString.SplitSecondPieceShape` | components/ImageEditor.tsx:11 | conversely, a string with two or more pieces is piece 0, a separator, piece 1, then nothing or a further separator |
| `ImageEditor.Payload` | components/ImageEditor.tsx:11 | `result.split(',')[1]`, with indexing past the end giving `undefined` (None): it is defined exactly when the reader result holds a comma, and then it contains no comma |
| `ImageEditor.PayloadBetweenCommas` | components/ImageEditor.tsx:11 | the payload is the segment after the first comma, up to the second comma or the end |
| `ImageEditor.PayloadShape` | components/ImageEditor.tsx:11 | every payload found sits between the first comma and the next comma or the end of the text |
| `ImageEditor.Base64DataUrl` | components/ImageEditor.tsx:8 | the reader result of `readAsDataURL` (`data:<mt>;base64,<data>`): when the media type and the data hold no comma, its only comma is the one right after `;base64`, so the payload split finds exactly that one |
| `ImageEditor.PayloadOfDataUrl` | components/ImageEditor.tsx:8-12 | round trip: for `data:<mt>;base64,<data>` with a comma-free media type and RFC 4648 base64 data, the extracted payload is `<data>` |
| `ImageEditor.Extension` | components/ImageEditor.tsx:65 | the derived extension is never empty and contains neither `;` nor `/` |
| `ImageEditor.ExtensionOfMediaType` | components/ImageEditor.tsx:65 | for a URL `<a>/<ext><rest>` with `a` free of `;` and `/`, and `rest` empty or starting with `;` or `/`, the extension is `ext` |
| `ImageEditor.ExtensionShape` | components/ImageEditor.tsx:65 | conversely, every extension other than `png` is read from such a position of the URL; the lemma returns that position's `a` and `rest` |
| `ImageEditor.NoSubtypeFallsBack` | components/ImageEditor.tsx:65 | a URL with no `/` before its first `;` gets the default extension `png` |
| `ImageEditor.WebpExtension` | components/ImageEditor.tsx:65-66 | `data:image/webp;base64,…` gives extension `webp` and file name `edited-image.webp` |
| `ImageEditor.DownloadFileName` | components/ImageEditor.tsx:66 | the editor's download name is `edited-image.` followed by the derived extension, and it contains neither `/` nor `;` |
| `ImageEditor.Editor.constructor` | components/ImageEditor.tsx:19-23 | initial cells: no source image, prompt `Add a retro filter`, no edited image, not loading, no error |
| `ImageEditor.Editor.SetPrompt` | components/ImageEditor.tsx:96 | the prompt input replaces the prompt and keeps the invariant |
| `ImageEditor.Editor.BeginFileChange` | components/ImageEditor.tsx:26-30 | with no file, nothing changes and no read starts; with a file, the edited image and the error are cleared and a read starts |
| `ImageEditor.Editor.CompleteFileChange` | components/ImageEditor.tsx:5-16 | a successful read stores the object URL, the payload and the file's declared media type (not one parsed from the URL) and leaves the error alone; a failed read sets `Could not read the selected file.` and keeps the previous source image |
| `ImageEditor.Editor.HandleFileChange` | components/ImageEditor.tsx:26-39 | the whole handler: loading and prompt untouched; no file changes nothing; otherwise the edited image is cleared, then the source image is replaced on success, or the read error is set and the source image kept |
| `ImageEditor.Editor.BeginEdit` | components/ImageEditor.tsx:41-48 | a missing source image or an empty prompt sets `Please upload an image and enter an editing prompt.`, makes no service call and leaves loading and the edited image alone; otherwise it requests an edit with the source's payload, media type and the prompt, and leaves loading on, no error and no edited image; with the button enabled (`disabled` at line 102 false) and a prompt it always dispatches, and once it dispatches the button is disabled |
| `ImageEditor.Editor.CompleteEdit` | components/ImageEditor.tsx:50-58 | success stores the URL, failure sets `Failed to edit image. Please try again.` with no edited image; loading is off after either branch; the source image and the prompt are unchanged; afterwards the button (line 102) is enabled exactly when a source image is present |
| `ImageEditor.Editor.HandleEdit` | components/ImageEditor.tsx:41-59 | the whole handler: a validation error without a call, or a call followed by the success or failure state; loading is off and the source image is unchanged at the end, so after a dispatched edit the button (line 102) is enabled again |
| `ImageEditor.Editor.Download` | components/ImageEditor.tsx:61-66 | no save without an edited image; otherwise one save of the edited image named `edited-image.<extension>` |
| `ImageGenerator.ReplaceNonAlnum` | components/ImageGenerator.tsx:35 | `replace(/[^a-z0-9]/gi, '_')` keeps the length, keeps every ASCII letter and digit, and turns every other character into `_` |
| `ImageGenerator.ToLowerAscii` | components/ImageGenerator.tsx:35 | `toLowerCase` keeps the length, lowers each upper-case ASCII letter and leaves every other character alone |
| `ImageGenerator.FileBaseName` | components/ImageGenerator.tsx:35 | the base name is the fallback `generated-image` exactly when the prompt is empty; otherwise it has length `min(|prompt|, 30)`, every character is in `[a-z0-9_]`, and character i is the sanitised character i of the prompt |
| `ImageGenerator.DownloadFileName` | components/ImageGenerator.tsx:35-36 | the generator's download name is the base name followed by `.jpeg`; for a non-empty prompt every character before `.jpeg` is in `[a-z0-9_]`, and for the empty prompt the name is `generated-image.jpeg` |
| `ImageGenerator.FileBaseNameIdempotent` | components/ImageGenerator.tsx:35 | for a non-empty prompt, sanitising the base name again gives it back unchanged |
| `ImageGenerator.FallbackNotFixed` | components/ImageGenerator.tsx:35 | idempotence needs a non-empty prompt: sanitising the fallback replaces its hyphen, so the fallback is not its own base name |
| `ImageGenerator.SymbolsBecomeUnderscores` | components/ImageGenerator.tsx:35-36 | `"!!!"` gives the base name `"___"` and the file `"___.jpeg"`, not the fallback |
| `ImageGenerator.SentencePromptName` | components/ImageGenerator.tsx:35 | `"A Cat! Wearing #1 Hat"` gives `"a_cat__wearing__1_hat"` |
| `ImageGenerator.Generator.constructor` | components/ImageGenerator.tsx:6-9 | initial cells: the default prompt, no image, not loading, no error |
| `ImageGenerator.Generator.SetPrompt` | components/ImageGenerator.tsx:52 | the text area replaces the prompt and keeps the invariant |
| `ImageGenerator.Generator.BeginGenerate` | components/ImageGenerator.tsx:11-18 | allowed only when `CanGenerate` (`!isLoading`); an empty prompt sets `Please enter a prompt.`, makes no service call and leaves loading and the image alone; otherwise it requests the prompt, and leaves loading on, no error and no image; once it dispatches, the button (`disabled={isLoading}`, line 60) is disabled |
| `ImageGenerator.Generator.CompleteGenerate` | components/ImageGenerator.tsx:20-28 | success stores the URL with no error; failure sets `Failed to generate image. Please try again.` with no image; loading is off after either branch, so the button (line 60) is enabled again |
| `ImageGenerator.Generator.HandleGenerate` | components/ImageGenerator.tsx:11-29 | the whole handler: a validation error without a call, or a call followed by the success or failure state; loading is off at the end, so the button (line 60) is enabled, and the prompt is unchanged |
| `ImageGenerator.Generator.Download` | components/ImageGenerator.tsx:31-36 | no save without an image; otherwise one save of the image, named from the current prompt plus `.jpeg` |

## Left out

- `App.tsx`, the JSX rendering, the placeholders and `LoadingSpinner`:
  presentation only.
- The image service (`generateImage`, `editImage`): a network call whose
  code is not part of this model. It appears only as the `Outcome`
  passed to `CompleteGenerate` and `CompleteEdit`.
- `FileReader`: browser I/O. Its result is the `ReadResult` parameter,
  and the base64 encoding it performs is not modelled.
- `URL.createObjectURL`: browser I/O. The object URL is a given field of
  `SelectedFile`.
- The anchor element, `link.click()` and `console.error`: DOM side
  effects. A download is modelled as the `Save` value it would start.
- Async interleaving and React's batching of state updates: the handlers
  are modelled as sequential Begin and Complete steps. A file change
  during a pending edit can be expressed by calling the methods in that
  order. Two settlements racing on one flow are not modelled.
- Astral characters and lone surrogates: a Dafny `char` is a Unicode
  scalar value, while JavaScript's `replace`, `slice` and `split` work on
  UTF-16 code units. The model covers text without characters outside the
  Basic Multilingual Plane and without lone surrogates. An astral
  character is one model character, so `FileBaseName` turns it into one
  `_` and counts it once toward the cut at 30; the code turns it into two
  `_` and counts two units.
- ImageGenerator.ToLowerAscii: models `toLowerCase` only for ASCII letters.
  In the code it only ever sees the output of the replacement, which is
  all ASCII.
