/**
 * How the two handlers differ on the same request: `app.py` accepts every
 * request `main.py` accepts at the key and the extension checks, and more.
 */
module Variants {
  import opened Wrappers
  import opened PyText
  import opened Web
  import opened Gemini
  import MainProxy
  import AppProxy

  /** Both handlers accept the same ten extensions. */
  lemma SameExtensionSet()
    ensures MainProxy.SupportedFormats == AppProxy.AllowedExtensions
  {
  }

  /** A key `main.py` accepts is the key `app.py` reads from the same header. */
  lemma BearerKeysAgree(header: string)
    requires MainProxy.KeyAccepted(MainProxy.ExtractApiKey(header))
    ensures AppProxy.ApiKey(header) == MainProxy.ExtractApiKey(header).value
  {
    assert header == header[..7] + header[7..];
    assert Drop(header, 7) == header[7..];
  }

  /** `main.py` reads no key from a header with another scheme. */
  lemma OtherSchemeRejectedByMain()
    ensures !MainProxy.KeyAccepted(MainProxy.ExtractApiKey("Token abcdef"))
  {
    assert "Token abcdef"[0] != MainProxy.Bearer[0];
  }

  /** `app.py` reads a key from any long enough header, whatever its scheme. */
  lemma AnySchemeAcceptedByApp()
    ensures AppProxy.ApiKey("Token abcdef") == "bcdef"
  {
    assert "Token abcdef" == "Token a" + "bcdef";
    assert Drop("Token abcdef", 7) == "bcdef";
    StripUnchanged("bcdef");
  }

  /** For a name with a `.`, both handlers compute the same extension. */
  lemma ExtensionsAgreeWithDot(filename: string)
    requires '.' in filename
    ensures MainProxy.FileExtension(filename) == AppProxy.Extension(filename)
  {
    AppProxy.ExtensionOfLowered(filename);
  }

  /** Every name `main.py` accepts, `app.py` accepts too. */
  lemma MainExtensionAcceptedImpliesApp(filename: string)
    requires MainProxy.FileExtension(filename) in MainProxy.SupportedFormats
    ensures AppProxy.Extension(filename) in AppProxy.AllowedExtensions
  {
    ExtensionsAgreeWithDot(filename);
  }

  /** But a bare `WAV` is accepted by `app.py` only: without a `.`, `main.py` checks "". */
  lemma DotlessNameAcceptedByAppOnly()
    ensures MainProxy.FileExtension("WAV") == "" && "" !in MainProxy.SupportedFormats
    ensures AppProxy.Extension("WAV") == "wav" && "wav" in AppProxy.AllowedExtensions
  {
    assert Lower("WAV") == "wav";
    AppProxy.ExtensionShape("WAV");
  }

  /** A request both handlers accept: a bearer key and a `.wav` upload. */
  function SampleRequest(): Request {
    Request(Some("Bearer k"), Some(Upload("a.wav")), map[])
  }

  /** `main.py` reads the key `k` from the sample's header. */
  lemma SampleKeyMain()
    ensures MainProxy.ExtractApiKey("Bearer k") == Some("k")
  {
    assert "Bearer k" == MainProxy.Bearer + "k";
    MainProxy.BearerRoundTrip("k");
  }

  /** `app.py` reads the same key. */
  lemma SampleKeyApp()
    ensures AppProxy.ApiKey("Bearer k") == "k"
  {
    SampleKeyMain();
    BearerKeysAgree("Bearer k");
  }

  /** `main.py` sees the extension `wav` in the sample's filename. */
  lemma SampleExtensionMain()
    ensures MainProxy.FileExtension("a.wav") == "wav"
  {
    var low := Lower("a.wav");
    assert low == "a.wav";
    assert low[|low| - 4..] == ".wav";
    MainProxy.ExtensionIsTail("a.wav", "wav");
  }

  /** `app.py` sees the same extension. */
  lemma SampleExtensionApp()
    ensures AppProxy.Extension("a.wav") == "wav"
  {
    SampleExtensionMain();
    ExtensionsAgreeWithDot("a.wav");
  }

  /** `main.py` accepts the sample request. */
  lemma SampleValidatedByMain()
    ensures MainProxy.Validated(SampleRequest())
  {
    var req := SampleRequest();
    assert AuthorizationHeader(req) == "Bearer k";
    assert req.file.value.filename == "a.wav";
    SampleKeyMain();
    SampleExtensionMain();
    assert "wav" in MainProxy.SupportedFormats;
  }

  /** `app.py` accepts the sample request. */
  lemma SampleValidatedByApp()
    ensures AppProxy.Validated(SampleRequest())
  {
    var req := SampleRequest();
    assert AuthorizationHeader(req) == "Bearer k";
    assert req.file.value.filename == "a.wav";
    SampleKeyApp();
    SampleExtensionApp();
    assert "wav" in AppProxy.AllowedExtensions;
  }

  /**
   * An empty reply is an error in `main.py` (500 "Empty response from
   * Gemini") but a success with an empty text in `app.py`.
   */
  lemma EmptyReplyDiffers()
    ensures var service := Service(Done, Returned(""), Done);
            && MainProxy.TranscribeAudio(SampleRequest(), service).response
               == ErrorResponse(500, "Empty response from Gemini")
            && AppProxy.Respond(SampleRequest(), service).response.status == 200
            && TranscriptOf(AppProxy.Respond(SampleRequest(), service).response.body) == Some("")
  {
    var service := Service(Done, Returned(""), Done);
    SampleValidatedByMain();
    SampleValidatedByApp();
    MainProxy.FailureMessages(SampleRequest(), service);
    AppProxy.OutcomeOfValidated(SampleRequest(), service);
    assert Strip("") == "";
  }

  /**
   * `main.py` tests the reply for emptiness before stripping it, so a reply
   * of whitespace only is a 200 whose transcript is "".
   */
  lemma BlankReplyPassesMain(reply: string)
    requires reply != "" && AllSpace(reply)
    ensures var o := MainProxy.TranscribeAudio(SampleRequest(), Service(Done, Returned(reply), Done));
            o.response.status == 200 && TranscriptOf(o.response.body) == Some("")
  {
    StripEmptyIff(reply);
    SampleValidatedByMain();
    MainProxy.SuccessIff(SampleRequest(), Service(Done, Returned(reply), Done));
  }
}
