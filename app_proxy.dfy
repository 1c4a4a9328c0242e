/**
 * The instrumented variant of the handler in `app.py`: a looser key and
 * extension check, one process-wide model built by `init_model` at start-up
 * (the handler builds it only as a fallback when it is still missing), and
 * the reply returned as `{"text": ...}`.
 */
module AppProxy {
  import opened Wrappers
  import opened PyText
  import opened Web
  import opened Gemini

  /** The extensions this variant accepts. */
  const AllowedExtensions: set<string> :=
    {"flac", "m4a", "mp3", "mp4", "mpeg", "mpga", "oga", "ogg", "wav", "webm"}

  /** The instruction sent with every upload. */
  const Instruction: string := "Transcribe accurately:"

  /**
   * The key: the header with its first 7 characters cut off, stripped.
   * Nothing checks what those 7 characters were.
   */
  function ApiKey(header: string): string
  {
    Strip(Drop(header, 7))
  }

  /**
   * The key is empty exactly when the header has at most 7 characters or
   * only whitespace after them; every other header gives a key.
   */
  lemma ApiKeyEmptyIff(header: string)
    ensures ApiKey(header) == "" <==> |header| <= 7 || AllSpace(header[7..])
  {
    StripEmptyIff(Drop(header, 7));
    if |header| > 7 {
      assert Drop(header, 7) == header[7..] by {
        assert header == header[..7] + header[7..];
      }
    }
  }

  /**
   * The extension: the last `.`-separated piece of the filename,
   * lower-cased. Without a `.` that is the whole filename, lower-cased.
   */
  function Extension(filename: string): (ext: string)
  {
    Lower(Last(Split(filename, '.')))
  }

  /** The extension never holds a `.`; without a `.` in the name it is the whole name, lower-cased. */
  lemma ExtensionShape(filename: string)
    ensures '.' !in filename ==> Extension(filename) == Lower(filename)
    ensures '.' !in Extension(filename)
  {
    LastSegment(filename, '.');
    LowerKeepsCaseless(Last(Split(filename, '.')), '.');
  }

  /** Splitting before lowering, as this variant does, gives the last piece of the lowered name. */
  lemma ExtensionOfLowered(filename: string)
    ensures Extension(filename) == Last(Split(Lower(filename), '.'))
  {
    LastSegmentLower(filename, '.');
  }

  /** A name whose lower-cased form ends in `.` and a dot-free tail has that tail as its extension. */
  lemma ExtensionIsTail(filename: string, tail: string)
    requires '.' !in tail && EndsWith(Lower(filename), "." + tail)
    ensures Extension(filename) == tail
  {
    var low := Lower(filename);
    assert low[|low| - |tail|..] == tail;
    assert |tail| < |low| && low[|low| - |tail| - 1] == '.';
    ExtensionOfLowered(filename);
    LastSegment(low, '.');
    TailAfterSepUnique(low, '.', Extension(filename), tail);
  }

  /** No allowed extension is empty or holds a `.`. */
  lemma AllowedAreDotFreeWords()
    ensures forall f :: f in AllowedExtensions ==> f != "" && '.' !in f
  {
  }

  /** With a `.` in the name, the extension passes exactly when the lowered name ends with `.` and an allowed one. */
  lemma ExtensionAllowedDotted(filename: string)
    requires '.' in filename
    ensures Extension(filename) in AllowedExtensions
            <==> exists f :: f in AllowedExtensions && EndsWith(Lower(filename), "." + f)
  {
    LowerKeepsCaseless(filename, '.');
    ExtensionOfLowered(filename);
    AllowedAreDotFreeWords();
    LastSegmentIn(Lower(filename), '.', AllowedExtensions);
  }

  /** Without a `.`, the extension passes exactly when the lowered name is an allowed extension, and no tail of that name holds a `.`. */
  lemma ExtensionAllowedDotless(filename: string)
    requires '.' !in filename
    ensures Extension(filename) in AllowedExtensions <==> Lower(filename) in AllowedExtensions
    ensures forall tail :: EndsWith(Lower(filename), tail) ==> '.' !in tail
  {
    ExtensionShape(filename);
    LowerKeepsCaseless(filename, '.');
  }

  /**
   * The extension passes exactly when the lower-cased filename is an
   * allowed extension itself (it then has no `.`) or ends with `.` and one.
   */
  lemma ExtensionAllowedIff(filename: string)
    ensures Extension(filename) in AllowedExtensions
            <==> (|| Lower(filename) in AllowedExtensions
                  || exists f :: f in AllowedExtensions && EndsWith(Lower(filename), "." + f))
  {
    if '.' in filename {
      ExtensionAllowedDotted(filename);
      LowerKeepsCaseless(filename, '.');
      AllowedAreDotFreeWords();
    } else {
      ExtensionAllowedDotless(filename);
    }
  }

  /** The model object the service is asked through. */
  datatype GenerativeModel = GenerativeModel(name: string)

  /** The request passes the key check, the file check and the extension check. */
  predicate Validated(req: Request) {
    && ApiKey(AuthorizationHeader(req)) != ""
    && HasFile(req.file)
    && Extension(req.file.value.filename) in AllowedExtensions
  }

  /** The handler gets as far as the model (`app.py` line 83): validated, and the upload went through. */
  predicate ReachesModel(req: Request, service: Service) {
    Validated(req) && service.upload.Done?
  }

  /**
   * What `transcribe_audio` answers: 401, 400 "No file" and 400 "Bad format"
   * in that order, then an upload and one generation; any exception is a
   * 500 with its message, and otherwise the stripped text is returned with
   * status 200, even when it is empty.
   */
  function Respond(req: Request, service: Service): (o: Outcome)
  {
    var key := ApiKey(AuthorizationHeader(req));
    if key == "" then Outcome(ErrorResponse(401, "No API key"), [])
    else if !HasFile(req.file) then Outcome(ErrorResponse(400, "No file"), [Configure(key)])
    else if Extension(req.file.value.filename) !in AllowedExtensions then
      Outcome(ErrorResponse(400, "Bad format"), [Configure(key)])
    else
      match service.upload
      case Failed(m) => Outcome(ErrorResponse(500, m), [Configure(key), UploadFile])
      case Done =>
        var calls := [Configure(key), UploadFile, GenerateContent(ModelName, Instruction)];
        match service.reply
        case Raised(m) => Outcome(ErrorResponse(500, m), calls)
        case Returned(t) => Outcome(Response(200, JsonDoc(JObject([("text", JString(Strip(t)))]))), calls)
  }

  /** An empty key is 401 whatever else the request holds; a non-empty one is never 401. */
  lemma UnauthorizedFirst(req: Request, service: Service)
    ensures var o := Respond(req, service);
            && (o.response.status == 401 <==> ApiKey(AuthorizationHeader(req)) == "")
            && (o.response.status == 401 ==> o == Outcome(ErrorResponse(401, "No API key"), []))
  {
  }

  /** After a key, a missing (or unnamed) file is 400 "No file". */
  lemma MissingFileSecond(req: Request, service: Service)
    requires ApiKey(AuthorizationHeader(req)) != ""
    requires !HasFile(req.file)
    ensures Respond(req, service) == Outcome(ErrorResponse(400, "No file"), [Configure(ApiKey(AuthorizationHeader(req)))])
  {
  }

  /** After a key and a file, the answer is 400 "Bad format" exactly when the extension is not allowed. */
  lemma BadFormatThird(req: Request, service: Service)
    requires ApiKey(AuthorizationHeader(req)) != ""
    requires HasFile(req.file)
    ensures Respond(req, service).response == ErrorResponse(400, "Bad format")
            <==> Extension(req.file.value.filename) !in AllowedExtensions
  {
  }

  /**
   * A validated request is 200 with `{"text": stripped reply}` exactly when
   * the upload and the generation go through, and otherwise a 500 carrying
   * the failing call's message.
   */
  lemma OutcomeOfValidated(req: Request, service: Service)
    requires Validated(req)
    ensures var o := Respond(req, service);
            && (o.response.status == 200 <==> service.upload.Done? && service.reply.Returned?)
            && (o.response.status == 200 ==>
                  o.response.body == JsonDoc(JObject([("text", JString(Strip(service.reply.text)))]))
                  && TranscriptOf(o.response.body) == Some(Strip(service.reply.text)))
            && (service.upload.Failed? ==> o.response == ErrorResponse(500, service.upload.message))
            && (service.upload.Done? && service.reply.Raised? ==>
                  o.response == ErrorResponse(500, service.reply.message))
  {
  }

  /** The longest call sequence a request can cause: configure the key, upload, ask the model once. */
  function FullCalls(key: string): seq<Call> {
    [Configure(key), UploadFile, GenerateContent(ModelName, Instruction)]
  }

  /** `calls` is the start of `FullCalls(key)`. */
  predicate PrefixOfFull(calls: seq<Call>, key: string) {
    |calls| <= 3 && calls == FullCalls(key)[..|calls|]
  }

  /** The four call sequences the handler can make are the four starts of `FullCalls`. */
  lemma PrefixesOfFull(key: string)
    ensures PrefixOfFull([], key)
    ensures PrefixOfFull([Configure(key)], key)
    ensures PrefixOfFull([Configure(key), UploadFile], key)
    ensures PrefixOfFull(FullCalls(key), key)
  {
    var full := FullCalls(key);
    assert full[..1] == [Configure(key)];
    assert full[..2] == [Configure(key), UploadFile];
    assert full[..3] == full;
  }

  /** With a key and a file, a rejected extension is 400 "Bad format" after configuring the key, and nothing else. */
  lemma BadFormatOutcome(req: Request, service: Service)
    requires ApiKey(AuthorizationHeader(req)) != "" && HasFile(req.file)
    ensures Extension(req.file.value.filename) !in AllowedExtensions ==>
              Respond(req, service) == Outcome(ErrorResponse(400, "Bad format"), [Configure(ApiKey(AuthorizationHeader(req)))])
  {
  }

  /** With a key, a file and an allowed extension, a failed upload is 500 with its message, after configuring and uploading. */
  lemma UploadFailedOutcome(req: Request, service: Service)
    requires ApiKey(AuthorizationHeader(req)) != "" && HasFile(req.file) && service.upload.Failed?
    ensures Extension(req.file.value.filename) in AllowedExtensions ==>
              Respond(req, service)
              == Outcome(ErrorResponse(500, service.upload.message), [Configure(ApiKey(AuthorizationHeader(req))), UploadFile])
  {
  }

  /** Once the model is reached, all of `FullCalls` is made and the reply decides the response. */
  lemma ReachedOutcome(req: Request, service: Service)
    requires ReachesModel(req, service)
    ensures Respond(req, service).calls == FullCalls(ApiKey(AuthorizationHeader(req)))
    ensures service.reply.Raised? ==> Respond(req, service).response == ErrorResponse(500, service.reply.message)
    ensures service.reply.Returned? ==>
              Respond(req, service).response == Response(200, JsonDoc(JObject([("text", JString(Strip(service.reply.text)))])))
  {
  }

  /** The handler makes one of four call sequences. */
  lemma CallsAreOneOf(req: Request, service: Service)
    ensures var calls := Respond(req, service).calls;
            var key := ApiKey(AuthorizationHeader(req));
            || calls == []
            || calls == [Configure(key)]
            || calls == [Configure(key), UploadFile]
            || calls == FullCalls(key)
  {
  }

  /** So the calls made are always a prefix of `FullCalls` for the key read from the header. */
  lemma CallsArePrefix(req: Request, service: Service)
    ensures PrefixOfFull(Respond(req, service).calls, ApiKey(AuthorizationHeader(req)))
  {
    CallsAreOneOf(req, service);
    PrefixesOfFull(ApiKey(AuthorizationHeader(req)));
  }

  /** The whole of it is made exactly when the handler reaches the model. */
  lemma AsksModelIff(req: Request, service: Service)
    ensures |Respond(req, service).calls| == 3 <==> ReachesModel(req, service)
  {
  }

  /** A prefix of `FullCalls` never deletes, and asks the model only as its third and last call. */
  lemma PrefixCalls(calls: seq<Call>, key: string)
    requires PrefixOfFull(calls, key)
    ensures forall k :: 0 <= k < |calls| ==> !calls[k].DeleteFile?
    ensures forall k :: 0 <= k < |calls| && calls[k].GenerateContent? ==> k == 2 == |calls| - 1
  {
    forall k | 0 <= k < |calls|
      ensures calls[k] == FullCalls(key)[k]
    {
    }
  }

  /** So the upload is never deleted, and the model is asked at most once, as the last call. */
  lemma NoDeleteAtMostOneGeneration(req: Request, service: Service)
    ensures var calls := Respond(req, service).calls;
            && (forall k :: 0 <= k < |calls| ==> !calls[k].DeleteFile?)
            && (forall k :: 0 <= k < |calls| && calls[k].GenerateContent? ==> k == 2 == |calls| - 1)
  {
    CallsArePrefix(req, service);
    PrefixCalls(Respond(req, service).calls, ApiKey(AuthorizationHeader(req)));
  }

  /**
   * The process-wide state of `app.py`: the module-level `model`, `None`
   * until `init_model` runs. `initRuns` counts how often `init_model` has
   * run, so that what the handler does to it can be stated.
   */
  class Server {
    var model: Option<GenerativeModel>
    ghost var initRuns: nat

    /** The model exists exactly when `init_model` has run at least once. */
    ghost predicate Valid()
      reads this
    {
      && (model.None? <==> initRuns == 0)
      && (model.Some? ==> model.value == GenerativeModel(ModelName))
    }

    /** The module state after `model = None`, before the start-up call to `init_model`. */
    constructor ()
      ensures Valid() && model == None && initRuns == 0
    {
      model := None;
      initRuns := 0;
    }

    /** `init_model`: builds the model and stores it, unconditionally. */
    method InitModel()
      requires Valid()
      modifies this
      ensures Valid()
      ensures model == Some(GenerativeModel(ModelName)) && initRuns == old(initRuns) + 1
    {
      model := Some(GenerativeModel(ModelName));
      initRuns := initRuns + 1;
    }

    /** `if model is None: init_model()`: initialises only a missing model. */
    method EnsureModel()
      requires Valid()
      modifies this
      ensures Valid() && model == Some(GenerativeModel(ModelName))
      ensures initRuns == old(initRuns) + (if old(model).None? then 1 else 0)
    {
      if model.None? {
        InitModel();
      }
    }

    /**
     * `transcribe_audio`: answers as `Respond` says, and initialises the
     * model only when it gets that far and no model exists yet.
     */
    method TranscribeAudio(req: Request, service: Service) returns (o: Outcome)
      requires Valid()
      modifies this
      ensures Valid() && o == Respond(req, service)
      ensures model == if ReachesModel(req, service) then Some(GenerativeModel(ModelName)) else old(model)
      ensures initRuns == old(initRuns) + if ReachesModel(req, service) && old(model).None? then 1 else 0
    {
      var key := ApiKey(AuthorizationHeader(req));
      if key == "" {
        UnauthorizedFirst(req, service);
        return Outcome(ErrorResponse(401, "No API key"), []);
      }
      if !HasFile(req.file) {
        MissingFileSecond(req, service);
        return Outcome(ErrorResponse(400, "No file"), [Configure(key)]);
      }
      var ext := Extension(req.file.value.filename);
      if ext !in AllowedExtensions {
        BadFormatOutcome(req, service);
        return Outcome(ErrorResponse(400, "Bad format"), [Configure(key)]);
      }
      if service.upload.Failed? {
        UploadFailedOutcome(req, service);
        return Outcome(ErrorResponse(500, service.upload.message), [Configure(key), UploadFile]);
      }
      ReachedOutcome(req, service);
      EnsureModel();
      var calls := [Configure(key), UploadFile, GenerateContent(model.value.name, Instruction)];
      match service.reply {
        case Raised(m) =>
          o := Outcome(ErrorResponse(500, m), calls);
        case Returned(t) =>
          o := Outcome(Response(200, JsonDoc(JObject([("text", JString(Strip(t)))]))), calls);
      }
    }
  }

  /**
   * Requests handled one after another from the state right after
   * `model = None`, as if the start-up `init_model` had not run (the program
   * never serves from that state), build the model at most once: the
   * handler's fallback builds it on the first request that needs it.
   */
  method TwoRequests(first: Request, s1: Service, second: Request, s2: Service)
    returns (o1: Outcome, o2: Outcome, server: Server)
    ensures fresh(server) && server.Valid()
    ensures o1 == Respond(first, s1) && o2 == Respond(second, s2)
    ensures server.initRuns <= 1
    ensures server.initRuns == 1 <==> ReachesModel(first, s1) || ReachesModel(second, s2)
  {
    server := new Server();
    o1 := server.TranscribeAudio(first, s1);
    o2 := server.TranscribeAudio(second, s2);
  }

  /**
   * Loading the module as a server does runs `init_model` once before any
   * request, so the handler's own `if model is None` never fires afterwards.
   */
  method ServeAfterStartup(first: Request, s1: Service, second: Request, s2: Service)
    returns (o1: Outcome, o2: Outcome, server: Server)
    ensures fresh(server) && server.Valid()
    ensures o1 == Respond(first, s1) && o2 == Respond(second, s2)
    ensures server.model == Some(GenerativeModel(ModelName)) && server.initRuns == 1
  {
    server := new Server();
    server.InitModel();
    o1 := server.TranscribeAudio(first, s1);
    o2 := server.TranscribeAudio(second, s2);
  }
}
