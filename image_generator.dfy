/** The text-to-image flow: a prompt, one request to the image service,
    the resulting image URL, and the file name offered for download. */
module ImageGenerator {
  import opened Common

  const DEFAULT_PROMPT := "A photorealistic image of a cat wearing a tiny hat"
  const PROMPT_REQUIRED := "Please enter a prompt."
  const GENERATE_FAILED := "Failed to generate image. Please try again."
  const FALLBACK_BASE_NAME := "generated-image"
  const MAX_BASE_NAME_LENGTH := 30
  const EXTENSION := ".jpeg"

  // ---------------------------------------------------------------
  // File name derivation:
  //   prompt.replace(/[^a-z0-9]/gi, '_').toLowerCase().slice(0, 30) || fallback
  // ---------------------------------------------------------------

  /** Matched by `[a-z0-9]` under the `i` flag. Without the `u` flag a
      case-insensitive class only folds ASCII letters here. */
  predicate IsAsciiAlnum(c: char)
  {
    'a' <= c <= 'z' || 'A' <= c <= 'Z' || '0' <= c <= '9'
  }

  /** The characters a sanitised base name is made of: `[a-z0-9_]`. */
  predicate IsBaseNameChar(c: char)
  {
    'a' <= c <= 'z' || '0' <= c <= '9' || c == '_'
  }

  /** `toLowerCase` of one ASCII character. */
  function LowerChar(c: char): (r: char)
    ensures 'A' <= c <= 'Z' ==> 'a' <= r <= 'z' && r as int - c as int == 32
    ensures !('A' <= c <= 'Z') ==> r == c
  {
    if 'A' <= c <= 'Z' then (c as int + 32) as char else c
  }

  /** What each prompt character becomes in the base name. */
  function BaseNameChar(c: char): (r: char)
    ensures IsBaseNameChar(r)
    ensures r == '_' <==> !IsAsciiAlnum(c)
  {
    if IsAsciiAlnum(c) then LowerChar(c) else '_'
  }

  /** `s.replace(/[^a-z0-9]/gi, '_')`: every character outside the class is
      replaced, one for one, by an underscore. */
  function ReplaceNonAlnum(s: string): (r: string)
    ensures |r| == |s|
    ensures forall i :: 0 <= i < |s| && IsAsciiAlnum(s[i]) ==> r[i] == s[i]
    ensures forall i :: 0 <= i < |s| && !IsAsciiAlnum(s[i]) ==> r[i] == '_'
    decreases |s|
  {
    if s == [] then ""
    else [if IsAsciiAlnum(s[0]) then s[0] else '_'] + ReplaceNonAlnum(s[1..])
  }

  /** `s.toLowerCase()` where `s` holds only ASCII characters; upper-case
      letters become lower-case and nothing else changes. */
  function ToLowerAscii(s: string): (r: string)
    ensures |r| == |s|
    ensures forall i :: 0 <= i < |s| && 'A' <= s[i] <= 'Z' ==> 'a' <= r[i] <= 'z' && r[i] as int == s[i] as int + 32
    ensures forall i :: 0 <= i < |s| && !('A' <= s[i] <= 'Z') ==> r[i] == s[i]
    decreases |s|
  {
    if s == [] then ""
    else [LowerChar(s[0])] + ToLowerAscii(s[1..])
  }

  /** The download base name derived from the prompt. A non-empty prompt
      yields one `[a-z0-9_]` character per prompt character, cut at 30;
      only the empty prompt yields the fallback. */
  function FileBaseName(prompt: string): (name: string)
    ensures (name == FALLBACK_BASE_NAME) <==> (prompt == "")
    ensures prompt != "" ==> |name| == Min(|prompt|, MAX_BASE_NAME_LENGTH)
    ensures prompt != "" ==> forall i :: 0 <= i < |name| ==> name[i] == BaseNameChar(prompt[i])
    ensures prompt != "" ==> forall i :: 0 <= i < |name| ==> IsBaseNameChar(name[i])
  {
    var cleaned := ToLowerAscii(ReplaceNonAlnum(prompt));
    var cut := cleaned[..Min(|cleaned|, MAX_BASE_NAME_LENGTH)];
    if cut != "" then
      assert cut[0] == BaseNameChar(prompt[0]);
      assert |cut| == 15 ==> cut[9] != FALLBACK_BASE_NAME[9];
      cut
    else FALLBACK_BASE_NAME
  }

  /** `${fileName}.jpeg`: the base name with the fixed extension. */
  function DownloadFileName(prompt: string): (name: string)
    ensures |name| > |EXTENSION|
    ensures name[..|name| - |EXTENSION|] == FileBaseName(prompt)
    ensures name[|name| - |EXTENSION|..] == EXTENSION
    ensures prompt != "" ==> forall i :: 0 <= i < |name| - |EXTENSION| ==> IsBaseNameChar(name[i])
    ensures prompt == "" ==> name == "generated-image.jpeg"
  {
    FileBaseName(prompt) + EXTENSION
  }

  /** A base name is its own base name: sanitising is idempotent on every
      name a non-empty prompt produces. */
  lemma FileBaseNameIdempotent(prompt: string)
    requires prompt != ""
    ensures FileBaseName(FileBaseName(prompt)) == FileBaseName(prompt)
  {
  }

  /** Idempotence needs a non-empty prompt: the fallback is not its own
      base name, because its hyphen is replaced by an underscore. */
  lemma FallbackNotFixed()
    ensures FileBaseName("") == FALLBACK_BASE_NAME
    ensures FileBaseName(FileBaseName("")) != FileBaseName("")
    ensures |FileBaseName(FALLBACK_BASE_NAME)| == 15 && FileBaseName(FALLBACK_BASE_NAME)[9] == '_'
  {
  }

  /** A prompt of symbols only is replaced by underscores; it does not
      fall back. */
  lemma SymbolsBecomeUnderscores()
    ensures FileBaseName("!!!") == "___"
    ensures DownloadFileName("!!!") == "___.jpeg"
  {
  }

  /** Letters are lowered, every other character becomes one underscore. */
  lemma SentencePromptName(prompt: string)
    requires prompt == "A Cat! Wearing #1 Hat"
    ensures FileBaseName(prompt) == "a_cat__wearing__1_hat"
  {
    assert |FileBaseName(prompt)| == 21;
  }

  // ---------------------------------------------------------------
  // The component's state cells and its two handlers.
  // ---------------------------------------------------------------

  /** One ImageGenerator component: its `useState` cells as fields. The
      service call of `handleGenerate` splits it into BeginGenerate, which
      runs up to the `await`, and CompleteGenerate, which runs the rest. */
  class Generator {
    var prompt: string
    var imageUrl: string
    var isLoading: bool
    var error: Option<string>

    /** While a request is in flight the previous image and error are gone. */
    predicate Valid()
      reads this
    {
      isLoading ==> imageUrl == "" && error == None
    }

    constructor ()
      ensures Valid()
      ensures prompt == DEFAULT_PROMPT && imageUrl == "" && !isLoading && error == None
    {
      prompt := DEFAULT_PROMPT;
      imageUrl := "";
      isLoading := false;
      error := None;
    }

    /** The prompt text area's `onChange`; it stays enabled while loading. */
    method SetPrompt(text: string)
      requires Valid()
      modifies this`prompt
      ensures Valid()
      ensures prompt == text
    {
      prompt := text;
    }

    /** The generate button is enabled exactly when `disabled={isLoading}` is false. */
    predicate CanGenerate()
      reads this
    {
      !isLoading
    }

    /** `handleGenerate` up to the service call. Returns the prompt sent to
        the service, or None when validation stopped it before any call. */
    method BeginGenerate() returns (request: Option<string>)
      requires Valid() && CanGenerate()
      modifies this`isLoading, this`error, this`imageUrl
      ensures Valid()
      ensures old(prompt) == "" ==>
        request == None && error == Some(PROMPT_REQUIRED) &&
        isLoading == old(isLoading) && imageUrl == old(imageUrl)
      ensures old(prompt) != "" ==>
        request == Some(old(prompt)) && isLoading && error == None && imageUrl == ""
      ensures request.Some? ==> !CanGenerate()
    {
      if prompt == "" {
        error := Some(PROMPT_REQUIRED);
        return None;
      }
      isLoading := true;
      error := None;
      imageUrl := "";
      request := Some(prompt);
    }

    /** `handleGenerate` after the service call settled: the success or
        failure branch, then the `finally` that clears loading. */
    method CompleteGenerate(outcome: Outcome)
      requires Valid() && isLoading
      modifies this`isLoading, this`error, this`imageUrl
      ensures Valid() && !isLoading && CanGenerate()
      ensures outcome.Success? ==> imageUrl == outcome.url && error == None
      ensures outcome.Failure? ==> imageUrl == "" && error == Some(GENERATE_FAILED)
    {
      match outcome {
        case Success(url) =>
          imageUrl := url;
        case Failure =>
          error := Some(GENERATE_FAILED);
      }
      isLoading := false;
    }

    /** The whole of `handleGenerate` when the service settles with `outcome`. */
    method HandleGenerate(outcome: Outcome) returns (request: Option<string>)
      requires Valid() && CanGenerate()
      modifies this`isLoading, this`error, this`imageUrl
      ensures Valid() && !isLoading && prompt == old(prompt) && CanGenerate()
      ensures old(prompt) == "" ==>
        request == None && error == Some(PROMPT_REQUIRED) && imageUrl == old(imageUrl)
      ensures old(prompt) != "" && outcome.Success? ==>
        request == Some(old(prompt)) && imageUrl == outcome.url && error == None
      ensures old(prompt) != "" && outcome.Failure? ==>
        request == Some(old(prompt)) && imageUrl == "" && error == Some(GENERATE_FAILED)
    {
      request := BeginGenerate();
      if request.Some? {
        CompleteGenerate(outcome);
      }
    }

    /** `handleDownload`: nothing without an image; otherwise a save of the
        image under the name derived from the current prompt. */
    method Download() returns (save: Option<Save>)
      ensures imageUrl == "" ==> save == None
      ensures imageUrl != "" ==> save == Some(Save(imageUrl, DownloadFileName(prompt)))
    {
      if imageUrl == "" {
        return None;
      }
      save := Some(Save(imageUrl, DownloadFileName(prompt)));
    }
  }
}
