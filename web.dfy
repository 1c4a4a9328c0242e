/**
 * The HTTP surface both handlers see: the parts of a Flask request they read
 * and the response they hand back (a status and either a plain-text or a
 * JSON body).
 */
module Web {
  import opened Wrappers

  /** An uploaded file as Werkzeug hands it over; only its name matters here. */
  datatype Upload = Upload(filename: string)

  /**
   * A POST to the transcription route: the `Authorization` header if sent,
   * the multipart part named `file` if sent, and the other form fields
   * (the first value of each).
   */
  datatype Request = Request(authorization: Option<string>, file: Option<Upload>, form: map<string, string>)

  /** `request.headers.get('Authorization', '')`. */
  function AuthorizationHeader(req: Request): (h: string)
    ensures req.authorization.Some? ==> h == req.authorization.value
    ensures req.authorization.None? ==> h == ""
  {
    req.authorization.GetOr("")
  }

  /** `request.form.get(name)`. */
  function FormField(req: Request, name: string): (v: Option<string>)
    ensures v.Some? <==> name in req.form
    ensures v.Some? ==> v.value == req.form[name]
  {
    if name in req.form then Some(req.form[name]) else None
  }

  /**
   * Whether the upload is truthy in Python. A missing part is `None`, and
   * a Werkzeug `FileStorage` is falsy exactly when its filename is empty,
   * so `not audio_file` holds for both.
   */
  predicate HasFile(file: Option<Upload>) {
    file.Some? && file.value.filename != ""
  }

  /** JSON values, as the handlers' dictionaries serialise. Numbers with a fraction are kept as their literal. */
  datatype Json =
    | JString(s: string)
    | JInt(i: int)
    | JNumber(literal: string)
    | JArray(items: seq<Json>)
    | JObject(members: seq<(string, Json)>)

  /** The value stored under `key` in a list of members (the first one, if repeated). */
  function Lookup(members: seq<(string, Json)>, key: string): (v: Option<Json>)
    ensures v.None? <==> forall k :: 0 <= k < |members| ==> members[k].0 != key
  {
    if |members| == 0 then None
    else if members[0].0 == key then Some(members[0].1)
    else Lookup(members[1..], key)
  }

  /** The value found is that of the first member with the key. */
  lemma {:induction false} LookupAt(members: seq<(string, Json)>, key: string, k: nat)
    requires k < |members| && members[k].0 == key
    requires forall i :: 0 <= i < k ==> members[i].0 != key
    ensures Lookup(members, key) == Some(members[k].1)
  {
    if k > 0 {
      LookupAt(members[1..], key, k - 1);
    }
  }

  /** `obj.get(key)` on a JSON object; nothing for a value that is not an object. */
  function Field(j: Json, key: string): Option<Json> {
    if j.JObject? then Lookup(j.members, key) else None
  }

  /** A plain-text body is sent as `text/plain`, a JSON body as `application/json`. */
  datatype Body = PlainText(text: string) | JsonDoc(doc: Json)

  datatype Response = Response(status: int, body: Body)

  /** The handlers' error shape: `{"error": {"message": message}}` with the given status. */
  function ErrorResponse(status: int, message: string): Response {
    Response(status, JsonDoc(JObject([("error", JObject([("message", JString(message))]))])))
  }

  /** How a client reads the error message of a response, if it carries one. */
  function ErrorMessage(resp: Response): Option<string> {
    match resp.body
    case PlainText(_) => None
    case JsonDoc(doc) =>
      match Field(doc, "error")
      case Some(err) =>
        (match Field(err, "message")
         case Some(JString(m)) => Some(m)
         case _ => None)
      case None => None
  }

  /** How a client reads the transcription: the whole plain-text body, or the JSON `text` field. */
  function TranscriptOf(body: Body): Option<string> {
    match body
    case PlainText(t) => Some(t)
    case JsonDoc(doc) =>
      match Field(doc, "text")
      case Some(JString(t)) => Some(t)
      case _ => None
  }

  /** An error response tells the client its message and status, and carries no transcript. */
  lemma ErrorResponseReadBack(status: int, message: string)
    ensures ErrorMessage(ErrorResponse(status, message)) == Some(message)
    ensures ErrorResponse(status, message).status == status
    ensures TranscriptOf(ErrorResponse(status, message).body).None?
  {
  }
}
