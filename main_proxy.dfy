/**
 * The OpenAI-compatible transcription handler of `main.py`: bearer-token
 * extraction, the file-extension check, prompt assembly, response shaping,
 * and the handler that runs them in order and reports the reply.
 */
module MainProxy {
  import opened Wrappers
  import opened PyText
  import opened Web
  import opened Gemini

  /** The audio formats the handler accepts, as lower-case extensions. */
  const SupportedFormats: set<string> :=
    {"flac", "m4a", "mp3", "mp4", "mpeg", "mpga", "oga", "ogg", "wav", "webm"}

  /** The scheme a header must start with for a key to be read from it. */
  const Bearer: string := "Bearer "

  /**
   * `extract_api_key`: the rest of the header after `"Bearer "`, stripped,
   * or nothing when the header does not start with exactly that prefix.
   */
  function ExtractApiKey(header: string): (key: Option<string>)
    ensures key.Some? <==> StartsWith(header, Bearer)
    ensures key.Some? ==> |key.value| <= |header| - |Bearer|
  {
    if StartsWith(header, Bearer) then Some(Strip(header[|Bearer|..])) else None
  }

  /** The handler goes on only with a key that is present and non-empty (`if not api_key`). */
  predicate KeyAccepted(key: Option<string>) {
    key.Some? && key.value != ""
  }

  /**
   * A key is accepted exactly when the header starts with `"Bearer "` and
   * something other than whitespace follows; `"Bearer    "` gives "".
   */
  lemma KeyAcceptedIff(header: string)
    ensures KeyAccepted(ExtractApiKey(header))
            <==> StartsWith(header, Bearer) && !AllSpace(header[|Bearer|..])
  {
    if StartsWith(header, Bearer) {
      StripEmptyIff(header[|Bearer|..]);
    }
  }

  /** A key without surrounding whitespace, sent as `Bearer <key>`, is read back unchanged. */
  lemma BearerRoundTrip(key: string)
    requires key == [] || (!IsSpace(key[0]) && !IsSpace(key[|key| - 1]))
    ensures ExtractApiKey(Bearer + key) == Some(key)
  {
    assert (Bearer + key)[..|Bearer|] == Bearer;
    assert (Bearer + key)[|Bearer|..] == key;
    StripUnchanged(key);
  }

  /**
   * The extension the handler checks: the lower-cased text after the last
   * `.` of the filename, or "" when the name holds no `.`.
   */
  function FileExtension(filename: string): (ext: string)
  {
    if '.' in filename then Last(Split(Lower(filename), '.')) else ""
  }

  /** No supported format is empty or holds a `.`. */
  lemma FormatsAreDotFreeWords()
    ensures forall f :: f in SupportedFormats ==> f != "" && '.' !in f
  {
  }

  /** A name whose lower-cased form ends in `.` and a dot-free tail has that tail as its extension. */
  lemma ExtensionIsTail(filename: string, tail: string)
    requires '.' !in tail && EndsWith(Lower(filename), "." + tail)
    ensures FileExtension(filename) == tail
  {
    var low := Lower(filename);
    assert low[|low| - |tail| - 1] == '.';
    LowerKeepsCaseless(filename, '.');
    assert '.' in filename;
    assert low[|low| - |tail|..] == tail;
    LastSegment(low, '.');
    TailAfterSepUnique(low, '.', FileExtension(filename), tail);
  }

  /**
   * A filename passes the format check exactly when its lower-cased form
   * ends with `.` followed by a supported format. So a name with no `.`
   * never passes.
   */
  lemma ExtensionAcceptedIff(filename: string)
    ensures FileExtension(filename) in SupportedFormats
            <==> exists f :: f in SupportedFormats && EndsWith(Lower(filename), "." + f)
  {
    LowerKeepsCaseless(filename, '.');
    FormatsAreDotFreeWords();
    LastSegmentIn(Lower(filename), '.', SupportedFormats);
  }

  /** The instructions every prompt starts with. */
  const BasePrompt: string :=
    "Transcribe this audio to text. Rules:\n"
    + "- Keep original language (Armenian/English/Russian mix is common)\n"
    + "- Remove filler words (uh, um, like)\n"
    + "- Clean up false starts and repetitions\n"
    + "- Output only the clean transcription text"

  /** The `language` form field counts only when present and non-empty (`if language`). */
  predicate HasLanguage(language: Option<string>) {
    language.Some? && language.value != ""
  }

  /**
   * The prompt sent with the audio: the base instructions, then a
   * `Language:` line when a language was given, then a `Context:` line
   * when a prompt was given.
   */
  function BuildPrompt(language: Option<string>, context: string): (p: string)
  {
    var withLanguage := if HasLanguage(language) then BasePrompt + "\nLanguage: " + language.value else BasePrompt;
    var withContext := if context != "" then withLanguage + "\nContext: " + context else withLanguage;
    withContext
  }

  /**
   * The prompt is the base instructions followed by the language line
   * (only with a language) and then the context line (only with a context),
   * in that order.
   */
  lemma PromptLayout(language: Option<string>, context: string)
    ensures var p := BuildPrompt(language, context);
            var langLine := if HasLanguage(language) then "\nLanguage: " + language.value else "";
            var ctxLine := if context != "" then "\nContext: " + context else "";
            StartsWith(p, BasePrompt) && p[|BasePrompt|..] == langLine + ctxLine
  {
    var p := BuildPrompt(language, context);
    var langLine := if HasLanguage(language) then "\nLanguage: " + language.value else "";
    var ctxLine := if context != "" then "\nContext: " + context else "";
    assert p == BasePrompt + (langLine + ctxLine);
  }

  /** With neither a language nor a context, and only then, the prompt is the base instructions unchanged. */
  lemma PromptBareIff(language: Option<string>, context: string)
    ensures BuildPrompt(language, context) == BasePrompt <==> !HasLanguage(language) && context == ""
  {
    PromptLayout(language, context);
  }

  /**
   * `create_openai_response`: the text itself for `"text"`, a one-segment
   * transcript for `"verbose_json"`, and `{"text": text}` for any other
   * format, the default `"json"` included.
   */
  function CreateOpenAIResponse(text: string, format: string): (body: Body)
  {
    if format == "text" then PlainText(text)
    else if format == "verbose_json" then
      JsonDoc(JObject([
        ("task", JString("transcribe")),
        ("language", JString("auto")),
        ("duration", JNumber("1.0")),
        ("text", JString(text)),
        ("segments", JArray([JObject([
          ("id", JInt(0)),
          ("start", JNumber("0.0")),
          ("end", JNumber("1.0")),
          ("text", JString(text))])]))]))
    else JsonDoc(JObject([("text", JString(text))]))
  }

  /** Whatever the format, a client reads back exactly the text that was shaped. */
  lemma ResponseCarriesText(text: string, format: string)
    ensures TranscriptOf(CreateOpenAIResponse(text, format)) == Some(text)
  {
    if format == "verbose_json" {
      VerboseShape(text);
    }
  }

  /** `"text"` gives the text unchanged; any format but the two named ones gives `{"text": text}` and nothing else. */
  lemma PlainAndDefaultShapes(text: string, format: string)
    ensures format == "text" ==> CreateOpenAIResponse(text, format) == PlainText(text)
    ensures format != "text" && format != "verbose_json" ==>
              CreateOpenAIResponse(text, format) == JsonDoc(JObject([("text", JString(text))]))
  {
  }

  /** `"verbose_json"` carries the task and the text at the top, and a list of exactly one segment. */
  lemma VerboseShape(text: string)
    ensures var doc := CreateOpenAIResponse(text, "verbose_json").doc;
            && Field(doc, "text") == Some(JString(text))
            && Field(doc, "task") == Some(JString("transcribe"))
            && Field(doc, "segments").Some?
            && Field(doc, "segments").value.JArray?
            && |Field(doc, "segments").value.items| == 1
  {
    var ms := CreateOpenAIResponse(text, "verbose_json").doc.members;
    LookupAt(ms, "task", 0);
    LookupAt(ms, "text", 3);
    LookupAt(ms, "segments", 4);
  }

  /** That one segment has id 0 and carries the text as well. */
  lemma VerboseSegment(text: string)
    ensures var doc := CreateOpenAIResponse(text, "verbose_json").doc;
            Field(doc, "segments").Some? && Field(doc, "segments").value.JArray?
            && |Field(doc, "segments").value.items| == 1
            && var seg := Field(doc, "segments").value.items[0];
               Field(seg, "id") == Some(JInt(0)) && Field(seg, "text") == Some(JString(text))
  {
    var ms := CreateOpenAIResponse(text, "verbose_json").doc.members;
    LookupAt(ms, "segments", 4);
    var seg := ms[4].1.items[0];
    LookupAt(seg.members, "id", 0);
    LookupAt(seg.members, "text", 3);
  }

  /**
   * `transcribe_audio`: the key check (401), the file check (400), the
   * format check (400), then the service: upload, generate with the
   * assembled prompt, reject an empty reply, strip it, delete the upload,
   * and shape the answer. Any exception on the way is a 500 with its
   * message; once the upload exists, the failure path tries to delete it.
   */
  function TranscribeAudio(req: Request, service: Service): (o: Outcome)
  {
    var key := ExtractApiKey(AuthorizationHeader(req));
    if !KeyAccepted(key) then Outcome(ErrorResponse(401, "No API key"), [])
    else
      var configured := [Configure(key.value)];
      if !HasFile(req.file) then Outcome(ErrorResponse(400, "No file provided"), configured)
      else
        var ext := FileExtension(req.file.value.filename);
        if ext !in SupportedFormats then
          Outcome(ErrorResponse(400, "Unsupported format: " + ext), configured)
        else
          var format := FormField(req, "response_format").GetOr("json");
          var prompt := BuildPrompt(FormField(req, "language"), FormField(req, "prompt").GetOr(""));
          match service.upload
          case Failed(m) => Outcome(ErrorResponse(500, m), configured + [UploadFile])
          case Done =>
            var generated := configured + [UploadFile, GenerateContent(ModelName, prompt)];
            match service.reply
            case Raised(m) => Outcome(ErrorResponse(500, m), generated + [DeleteFile])
            case Returned(reply) =>
              if reply == "" then
                Outcome(ErrorResponse(500, "Empty response from Gemini"), generated + [DeleteFile])
              else
                var text := Strip(reply);
                match service.delete
                case Failed(m) => Outcome(ErrorResponse(500, m), generated + [DeleteFile, DeleteFile])
                case Done =>
                  var body := if format == "text" then PlainText(text) else CreateOpenAIResponse(text, format);
                  Outcome(Response(200, body), generated + [DeleteFile])
  }

  /** The request passes the three checks that come before the service is used. */
  predicate Validated(req: Request) {
    && KeyAccepted(ExtractApiKey(AuthorizationHeader(req)))
    && HasFile(req.file)
    && FileExtension(req.file.value.filename) in SupportedFormats
  }

  /**
   * Without an accepted key the answer is 401 "No API key", whatever the
   * file, the form and the service do, and no call is made; with one it is
   * never 401.
   */
  lemma UnauthorizedFirst(req: Request, service: Service)
    ensures var o := TranscribeAudio(req, service);
            && (o.response.status == 401 <==> !KeyAccepted(ExtractApiKey(AuthorizationHeader(req))))
            && (o.response.status == 401 ==> o == Outcome(ErrorResponse(401, "No API key"), []))
  {
  }

  /**
   * With an accepted key, a missing file or an empty filename is 400
   * "No file provided"; the only call made is configuring the key.
   */
  lemma MissingFileSecond(req: Request, service: Service)
    requires KeyAccepted(ExtractApiKey(AuthorizationHeader(req)))
    requires !HasFile(req.file)
    ensures TranscribeAudio(req, service)
            == Outcome(ErrorResponse(400, "No file provided"),
                       [Configure(ExtractApiKey(AuthorizationHeader(req)).value)])
  {
  }

  /**
   * With an accepted key and a file, the answer is the unsupported-format
   * 400 exactly when the extension is not supported.
   */
  lemma FormatThird(req: Request, service: Service)
    requires KeyAccepted(ExtractApiKey(AuthorizationHeader(req)))
    requires HasFile(req.file)
    ensures var ext := FileExtension(req.file.value.filename);
            TranscribeAudio(req, service).response == ErrorResponse(400, "Unsupported format: " + ext)
            <==> ext !in SupportedFormats
  {
  }

  /** A request that fails a check gets a 400 or 401; one that passes them all gets neither. */
  lemma RejectedIff(req: Request, service: Service)
    ensures var status := TranscribeAudio(req, service).response.status;
            status == 400 || status == 401 <==> !Validated(req)
  {
  }

  /** A rejected request reaches the service at most to configure the key: nothing is uploaded. */
  lemma RejectedBeforeUpload(req: Request, service: Service)
    requires !Validated(req)
    ensures var calls := TranscribeAudio(req, service).calls;
            |calls| <= 1 && UploadFile !in calls
  {
  }

  /** The only statuses are 200, 400, 401 and 500. */
  lemma StatusCodes(req: Request, service: Service)
    ensures var status := TranscribeAudio(req, service).response.status;
            status == 200 || status == 400 || status == 401 || status == 500
  {
  }

  /**
   * A validated request succeeds exactly when the upload, a non-empty
   * reply and the delete all succeed; the client then reads the stripped
   * reply, as plain text for `"text"` and shaped for every other format.
   */
  lemma SuccessIff(req: Request, service: Service)
    requires Validated(req)
    ensures var o := TranscribeAudio(req, service);
            var format := FormField(req, "response_format").GetOr("json");
            && (o.response.status == 200
                <==> service.upload.Done? && service.reply.Returned? && service.reply.text != ""
                     && service.delete.Done?)
            && (o.response.status == 200 ==>
                  && TranscriptOf(o.response.body) == Some(Strip(service.reply.text))
                  && (o.response.body.PlainText? <==> format == "text")
                  && (format != "text" ==>
                        o.response.body == CreateOpenAIResponse(Strip(service.reply.text), format)))
  {
    var o := TranscribeAudio(req, service);
    if o.response.status == 200 {
      ResponseCarriesText(Strip(service.reply.text), FormField(req, "response_format").GetOr("json"));
    }
  }

  /**
   * A validated request that fails is a 500 whose message is the failing
   * call's, or "Empty response from Gemini" for an empty reply.
   */
  lemma FailureMessages(req: Request, service: Service)
    requires Validated(req)
    ensures var o := TranscribeAudio(req, service);
            && (service.upload.Failed? ==> o.response == ErrorResponse(500, service.upload.message))
            && (service.upload.Done? && service.reply.Raised? ==>
                  o.response == ErrorResponse(500, service.reply.message))
            && (service.upload.Done? && service.reply == Returned("") ==>
                  o.response == ErrorResponse(500, "Empty response from Gemini"))
            && (service.upload.Done? && service.reply.Returned? && service.reply.text != ""
                && service.delete.Failed? ==>
                  o.response == ErrorResponse(500, service.delete.message))
  {
  }

  /**
   * The service sees the key first; after a successful upload it is asked
   * once, with the assembled prompt, and the upload is then always deleted
   * (once on success, also on every failure path).
   */
  lemma ServiceCallOrder(req: Request, service: Service)
    requires Validated(req)
    ensures var o := TranscribeAudio(req, service);
            var prompt := BuildPrompt(FormField(req, "language"), FormField(req, "prompt").GetOr(""));
            && o.calls[0] == Configure(ExtractApiKey(AuthorizationHeader(req)).value)
            && o.calls[1] == UploadFile
            && (service.upload.Failed? <==> |o.calls| == 2)
            && (service.upload.Done? ==>
                  && o.calls[2] == GenerateContent(ModelName, prompt)
                  && forall k :: 3 <= k < |o.calls| ==> o.calls[k] == DeleteFile)
            && (service.upload.Done? ==> |o.calls| >= 4 && o.calls[|o.calls| - 1] == DeleteFile)
  {
  }
}
