# Gemini transcription proxy: request front, modelled in Dafny

The repository holds two near-identical Flask handlers for
`POST /v1/audio/transcriptions`. Each takes an OpenAI-style multipart
upload, checks it, forwards the audio to Google's Gemini service and
returns the transcript.

- `main.py` reads the key only from a `Bearer ` header. It accepts a file
  only if the name has a `.` and a supported extension. It builds a prompt
  from the optional `language` and `prompt` form fields, rejects an empty
  reply, deletes the upload afterwards, and shapes the answer as plain
  text, `{"text": ...}` or a one-segment `verbose_json` document.
- `app.py` is a looser, instrumented variant. It cuts the first 7
  characters off any header. It takes the last `.`-piece of any name, so a
  bare `WAV` passes. It asks one process-wide model object, which
  `init_model` builds at start-up (app.py:127 when run as a script,
  app.py:138 when imported); the handler's `if model is None: init_model()`
  (app.py:83-85) is a fallback that does not fire in the program as
  written. It always answers `{"text": ...}`.

Modules, one per concern:

| file | module | what it holds |
|---|---|---|
| `wrappers.dfy` | `Wrappers` | `Option`, standing for Python's `None` |
| `pytext.dfy` | `PyText` | the Python `str` operations the handlers use: `isspace`, `strip()`, `startswith`, `s[k:]`, `lower()`, `split(sep)[-1]`; `split` and `join` are proved inverse |
| `web.dfy` | `Web` | the request the handlers read (the `Authorization` header, the `file` part, the form fields), JSON bodies and responses |
| `gemini.dfy` | `Gemini` | the remote service as data: what the upload, the generation and the delete do for one request, and the calls a handler makes |
| `main_proxy.dfy` | `MainProxy` | `main.py`: `extract_api_key`, the extension check, the prompt, `create_openai_response`, and `transcribe_audio` as a function from request and service to response and call trace |
| `app_proxy.dfy` | `AppProxy` | `app.py`: the key, the extension, the outcome of a request, and the class `Server`, which holds the module-level `model` that `init_model` fills |
| `variants.dfy` | `Variants` | lemmas comparing the two handlers on the same inputs |

Both handlers are modelled as functions: `MainProxy.TranscribeAudio` and
`AppProxy.Respond`. Each returns an `Outcome`, which is the HTTP response
plus the calls made to the service, in order. The handlers have no loops.
Besides the process-wide API key that `genai.configure` sets (main.py:51,
app.py:40), which the model records only as a `Configure` call, the only
program state either one changes is `app.py`'s global `model`. That field
lives in `AppProxy.Server`, and the method `AppProxy.Server.TranscribeAudio`
is proved to answer exactly as `AppProxy.Respond` says.

The remote service appears as a `Service` value with three parts: whether
`upload_file` succeeds, whether `generate_content(...).text` returns a text
or raises (and with what message), and whether `delete_file` succeeds. An
exception anywhere in the pipeline becomes the 500 `{"error": {"message":
str(e)}}` that both handlers return.

Werkzeug's `FileStorage` is falsy when its filename is empty. So
`app.py`'s `if not audio_file` (app.py:43) rejects an unnamed upload too,
exactly like `main.py`'s explicit `not audio_file.filename` check. `HasFile`
models both.

`comprehensive_test.py` calls `/cache/clear`, `/warmup` and `/metrics`
(comprehensive_test.py:163, 223, 316); neither `main.py` nor `app.py`
implements them, so there is no cache or warm-up endpoint to model. Apart
from the library's process-wide API key, recorded only as a `Configure`
call, the only program state is `app.py`'s `model`: set at start-up by `init_model`, and
set again by the handler's unlocked fallback if it were still `None`. The
model states what sequential requests do to it.

## Model

| member | source | states |
|---|---|---|
| PyText.StripIsInnerSlice | main.py:18 | `strip()` keeps one slice `s[i..j]` of the string, with only whitespace around it, and that slice neither starts nor ends with whitespace |
| PyText.StripUnchanged | main.py:18 | a string that neither starts nor ends with whitespace is its own `strip()` |
| PyText.StripEmptyIff | main.py:18 | `strip()` gives "" exactly when the string is whitespace only |
| PyText.StripIdempotent | main.py:18 | a general fact about `strip()`, not one the handlers rely on: stripping twice is stripping once |
| PyText.Drop | app.py:36 | `s[7:]` has length `|s| - 7`, or 0 for a shorter string, and is what follows the first 7 characters |
| PyText.LowerChar | main.py:59 | `lower()` maps an ASCII capital to its small letter and keeps every other character |
| PyText.Lower | main.py:59 | `lower()` keeps the length and lowers each character in place |
| PyText.LowerKeepsCaseless | main.py:59 | lowering neither adds nor removes a `.` |
| PyText.LowerIdempotent | app.py:46 | a general fact about the ASCII `lower()`, not one the handlers rely on: lowering twice is lowering once |
| PyText.LowerConcat | app.py:46 | lowering distributes over concatenation |
| PyText.Split | main.py:59 | `split` always gives at least one piece, so `[-1]` is defined |
| PyText.JoinSplit | main.py:59 | joining the pieces of `split(sep)` with `sep` gives the string back, and no piece holds `sep` |
| PyText.SplitJoin | main.py:59 | splitting a join of separator-free pieces gives the pieces back |
| PyText.SplitSepFree | app.py:46 | a string without the separator splits into itself alone |
| PyText.SplitAppend | main.py:59 | appending a separator and a separator-free tail adds exactly that tail as the last piece |
| PyText.LastSegment | main.py:59 | `split(sep)[-1]` is a tail of the string and holds no separator; a separator stands right before it, unless it is the whole string, which happens exactly when the string holds no separator |
| PyText.TailAfterSepUnique | main.py:59 | only one tail of a string can be separator-free and follow a separator (or fill the string) |
| PyText.LastSegmentIn | main.py:59-60 | for separator-free words: the string holds the separator and its last piece is a word exactly when the string ends with the separator followed by a word |
| PyText.SplitLower | app.py:46 | with a caseless separator, splitting the lowered string gives the lowered pieces, one for one |
| PyText.LastSegmentLower | app.py:46 | the last piece of the lowered string is the lowered last piece |
| Web.AuthorizationHeader | main.py:17 | the header's value, or "" when it was not sent |
| Web.FormField | main.py:64-66 | a form field's value exactly when the field was sent |
| Web.Lookup | main.py:25-39 | a JSON member lookup finds nothing exactly when no member has the key |
| Web.LookupAt | main.py:25-39 | the lookup returns the value of the first member with the key |
| Web.ErrorResponseReadBack | main.py:124-125 | an error response carries its status and message, and no transcript |
| MainProxy.ExtractApiKey | main.py:15-18 | a key exactly when the header starts with `"Bearer "`; the key is no longer than the rest of the header |
| MainProxy.KeyAcceptedIff | main.py:46-47 | the key passes `if not api_key` exactly when the header starts with `"Bearer "` and something other than whitespace follows |
| MainProxy.BearerRoundTrip | main.py:18 | a key without surrounding whitespace, sent as `Bearer <key>`, is read back unchanged |
| MainProxy.FormatsAreDotFreeWords | main.py:13 | no supported format is empty or holds a `.` |
| MainProxy.ExtensionIsTail | main.py:59 | when the lowered name ends with `.` and a dot-free tail, that tail is the extension |
| MainProxy.ExtensionAcceptedIff | main.py:59-60 | the extension is supported exactly when the lowered name ends with `.` and a supported format, so a dotless name never passes |
| MainProxy.PromptLayout | main.py:80-89 | the prompt is the base text, then `"\nLanguage: "` and the language only when one is given, then `"\nContext: "` and the context only when one is given |
| MainProxy.PromptBareIff | main.py:86-89 | the prompt is the base text unchanged exactly when neither a language nor a context is given |
| MainProxy.ResponseCarriesText | main.py:20-40 | for every format, a client reads back exactly the shaped text |
| MainProxy.PlainAndDefaultShapes | main.py:22-25 | `"text"` gives the text itself; any other format except `"verbose_json"` gives exactly `{"text": t}` |
| MainProxy.VerboseShape | main.py:26-39 | `verbose_json` has task `"transcribe"` and text `t` at the top, and a segment list of length one |
| MainProxy.VerboseSegment | main.py:33-38 | that one segment has id 0 and text `t` |
| MainProxy.UnauthorizedFirst | main.py:46-48 | 401 "No API key", with no call made, exactly when the key is missing or empty, whatever the file, form and service |
| MainProxy.MissingFileSecond | main.py:51-56 | with a key, a missing or unnamed file is 400 "No file provided", after only the key is configured |
| MainProxy.FormatThird | main.py:59-61 | with a key and a file, the answer is 400 "Unsupported format: <ext>" exactly when the extension is not supported |
| MainProxy.RejectedIff | main.py:46-61 | the status is 400 or 401 exactly when the request fails one of the three checks |
| MainProxy.RejectedBeforeUpload | main.py:46-61 | a rejected request makes at most one call, and never the upload |
| MainProxy.StatusCodes | main.py:42-125 | the only statuses are 200, 400, 401 and 500 |
| MainProxy.SuccessIff | main.py:77-109 | a checked request is 200 exactly when the upload, a non-empty reply and the delete all succeed; the client then reads the stripped reply, as plain text for `"text"` and as `create_openai_response` otherwise |
| MainProxy.FailureMessages | main.py:75-125 | a failed upload, a raised generation, an empty reply or a failed delete each give 500 with that failure's message ("Empty response from Gemini" for the empty reply) |
| MainProxy.ServiceCallOrder | main.py:51-117 | the key is configured first and the upload comes next; after a successful upload the model is asked once with the assembled prompt, and from then on only deletes follow, at least one |
| AppProxy.ApiKeyEmptyIff | app.py:36-38 | the key is empty exactly when the header has at most 7 characters or only whitespace after them, whatever its first 7 characters |
| AppProxy.ExtensionShape | app.py:46 | the extension never holds a `.`; for a dotless name it is the whole name, lowered |
| AppProxy.ExtensionOfLowered | app.py:46 | splitting before lowering gives the same extension as lowering before splitting |
| AppProxy.ExtensionIsTail | app.py:46 | when the lowered name ends with `.` and a dot-free tail, that tail is the extension |
| AppProxy.AllowedAreDotFreeWords | app.py:47 | no allowed extension is empty or holds a `.` |
| AppProxy.ExtensionAllowedDotted | app.py:46-47 | for a name with a `.`: allowed exactly when the lowered name ends with `.` and an allowed extension |
| AppProxy.ExtensionAllowedDotless | app.py:46-47 | for a name without a `.`: allowed exactly when the lowered name is itself an allowed extension |
| AppProxy.ExtensionAllowedIff | app.py:46-48 | allowed exactly when the lowered name is an allowed extension or ends with `.` and one |
| AppProxy.UnauthorizedFirst | app.py:36-38 | 401 "No API key", with no call made, exactly when the key is empty |
| AppProxy.MissingFileSecond | app.py:40-44 | with a key, a missing or unnamed file is 400 "No file", after only the key is configured |
| AppProxy.BadFormatThird | app.py:46-48 | with a key and a file, the answer is 400 "Bad format" exactly when the extension is not allowed |
| AppProxy.BadFormatOutcome | app.py:40-48 | with a key and a file, a rejected extension gives 400 "Bad format" after only the key is configured |
| AppProxy.UploadFailedOutcome | app.py:71-123 | with a key, a file and an allowed extension, a failed upload gives 500 with its message, after configuring and uploading |
| AppProxy.ReachedOutcome | app.py:71-123 | past the upload, the model is asked once with "Transcribe accurately:"; the reply gives 200 `{"text": stripped}`, or 500 with the exception's message |
| AppProxy.OutcomeOfValidated | app.py:109-123 | a checked request is 200 with `{"text": stripped reply}` exactly when the upload and the generation succeed, and otherwise a 500 carrying the failing call's message |
| AppProxy.PrefixesOfFull | app.py:40-90 | the four call sequences the handler can make are the four starts of configure, upload, generate |
| AppProxy.CallsAreOneOf | app.py:36-90 | every request makes one of those four call sequences |
| AppProxy.CallsArePrefix | app.py:36-90 | the calls made are always a start of configure, upload, generate |
| AppProxy.AsksModelIff | app.py:83-87 | the model is asked exactly when the request passes the checks and the upload succeeds |
| AppProxy.PrefixCalls | app.py:40-90 | a start of configure, upload, generate never deletes, and generates only as its third and last call |
| AppProxy.NoDeleteAtMostOneGeneration | app.py:74-90 | this variant never deletes the upload, and asks the model at most once, as its last call |
| AppProxy.Server.constructor | app.py:17 | the module starts with `model = None` |
| AppProxy.Server.InitModel | app.py:19-23 | `init_model` stores a `gemini-2.5-flash` model, whatever was there |
| AppProxy.Server.EnsureModel | app.py:83-85 | afterwards the model exists; it is built only if it was missing |
| AppProxy.Server.TranscribeAudio | app.py:36-123 | the handler answers as `Respond` says; it builds the model only when it gets past the upload with no model yet, and otherwise leaves `model` alone |
| AppProxy.TwoRequests | app.py:17-85 | from the state right after `model = None` (app.py:17), before the start-up `init_model`, which `app.py` never serves from: two requests in a row build the model at most once, and exactly once if either gets past the upload |
| AppProxy.ServeAfterStartup | app.py:125-138 | with `init_model` run at import, later requests never build the model again |
| Variants.SameExtensionSet | main.py:13 | both handlers accept the same ten extensions |
| Variants.BearerKeysAgree | main.py:18 | a key `main.py` accepts is the key `app.py` reads from the same header |
| Variants.OtherSchemeRejectedByMain | main.py:18 | `main.py` reads no key from `"Token abcdef"` |
| Variants.AnySchemeAcceptedByApp | app.py:36 | `app.py` reads the key `"bcdef"` from `"Token abcdef"` |
| Variants.ExtensionsAgreeWithDot | app.py:46 | for a name with a `.`, both handlers compute the same extension |
| Variants.MainExtensionAcceptedImpliesApp | app.py:46-47 | every name `main.py` accepts, `app.py` accepts too |
| Variants.DotlessNameAcceptedByAppOnly | main.py:59-60 | `"WAV"` has extension "" in `main.py` and is rejected; `app.py` takes it as `wav` and accepts it |
| Variants.SampleKeyMain | main.py:18 | `"Bearer k"` gives the key `k` |
| Variants.SampleKeyApp | app.py:36 | `app.py` reads the same key `k` |
| Variants.SampleExtensionMain | main.py:59 | `a.wav` has extension `wav` |
| Variants.SampleExtensionApp | app.py:46 | `app.py` sees the same extension |
| Variants.SampleValidatedByMain | main.py:46-61 | `Bearer k` with `a.wav` passes `main.py`'s three checks |
| Variants.SampleValidatedByApp | app.py:36-48 | and `app.py`'s three checks |
| Variants.EmptyReplyDiffers | main.py:95-96 | an empty reply is 500 "Empty response from Gemini" in `main.py` but 200 with an empty transcript in `app.py` |
| Variants.BlankReplyPassesMain | main.py:95-98 | `main.py` tests for an empty reply before stripping, so a whitespace-only reply is a 200 with an empty transcript |

## Left out

- `comprehensive_test.py`: an HTTP test client with timing thresholds; it holds no handler logic.
- Flask routing, the CORS headers added by `after_request` (main.py:127-133), and `app.run` (main.py:135-138, app.py:125-134). The start-up call to `init_model` is kept as `AppProxy.ServeAfterStartup`.
- The Content-Type header of the plain-text answer (main.py:106) is not modelled. `Body.PlainText` stands for it.
- Temp files: `os.path.splitext`, `NamedTemporaryFile`, `save` and `os.unlink`, with their best-effort cleanup (main.py:69-73, 102, 118-121; app.py:63-66, 79, 112-115). This is filesystem I/O, so a failing unlink is not modelled. An unlink that fails on `main.py`'s success path would turn the answer into a 500.
- Timing, logging, and the file size read with `seek`/`tell` (app.py:50-69, 91-107). These are clocks, floats and I/O. The log's `len(response.text)` (app.py:106) is the first read of `.text` and line 109 the second; an exception from `.text` at line 106 gives the same 500 as one at line 109, so `Reply.Raised` covers both.
- The unused `ThreadPoolExecutor` (app.py:16) and `MAX_FILE_SIZE` (main.py:12).
- Concurrency: both servers run with `threaded=True` (main.py:138, app.py:132), and two pieces of shared state are written without a lock: `app.py`'s `model`, and the library's process-wide API key, which every request that passes the key check sets with `genai.configure` (main.py:51, app.py:40). Concurrent requests can overwrite each other's key between `configure` and `upload_file`. The model is sequential: `AppProxy.Server` states what one request after another does to `model`, and the key appears only as the `Configure` call each request makes before all its other calls.
- `genai.configure` and `genai.GenerativeModel` are assumed not to raise. The model records `configure` as a call with the key.
- `MainProxy.TranscribeAudio` has no separate case for a falsy response object (`not response`, main.py:95). That case raises "Empty response from Gemini", the same 500 as an empty text, which the model does cover.
- PyText.Lower: maps only ASCII capitals, character by character. Python's `lower()` covers all of Unicode and is context-sensitive: a capital sigma `Σ` becomes the final form `ς` at the end of a word and `σ` elsewhere. No non-ASCII character lowers to a letter of an allowed extension, so accepting or rejecting a name is unaffected in both handlers. What differs is the extension computed for names with non-ASCII capitals, so the text after "Unsupported format: " can differ, and so can the members below, which hold for ASCII lowering only.
- PyText.LowerChar: keeps every non-ASCII character; Python lowers `É` to `é` and `Σ` to `σ` or `ς`. It holds for ASCII lowering only.
- PyText.LowerConcat: lowering distributes over concatenation only for the ASCII stand-in; in Python `('x' + 'Σ').lower()` is `'xς'` while `'x'.lower() + 'Σ'.lower()` is `'xσ'` (the final-sigma rule).
- PyText.SplitLower: holds for ASCII lowering only; by the final-sigma rule, Python gives `'ς'` as the last piece of `"a.Σ".lower()` but `'σ'` for the lowered last piece of `"a.Σ"`.
- PyText.LastSegmentLower: holds for ASCII lowering only; the final-sigma case `"a.Σ"` gives `'ς'` one way and `'σ'` the other in Python.
- AppProxy.ExtensionOfLowered: holds for ASCII lowering only; for `"a.Σ"`, `app.py`'s split-then-lower gives `'σ'`, and Python's lower-then-split gives `'ς'` (final-sigma rule).
- AppProxy.ExtensionIsTail: holds for ASCII lowering only; in Python `"a.Σ"` lowers to `"a.ς"`, which ends in `.ς`, but `app.py`'s extension of it is `'σ'` (final-sigma rule).
- Variants.ExtensionsAgreeWithDot: holds for ASCII lowering only; for `"a.Σ"`, `main.py` computes `ς` and `app.py` computes `σ` (final-sigma rule). Both are rejected, so the handlers still agree on acceptance.
- The `verbose_json` float constants (`duration`, `start`, `end`) are kept as their literals, `"1.0"` and `"0.0"`.
- The `/cache/clear`, `/warmup` and `/metrics` endpoints that `comprehensive_test.py` calls (comprehensive_test.py:163, 223, 316): neither handler file implements them.
