/**
 * The remote Gemini service as the handlers see it. Its calls are not
 * modelled; what each call does for one request is given as data: whether
 * the upload and the delete succeed, and what `generate_content(...).text`
 * gives or raises. The handlers report which calls they make, in order.
 */
module Gemini {
  import opened Web

  /** The model both handlers name. */
  const ModelName: string := "gemini-2.5-flash"

  /** The outcome of a call made only for its effect (`upload_file`, `delete_file`). */
  datatype Step = Done | Failed(message: string)

  /** `generate_content(...)` followed by reading `.text`: a text, or an exception with its message. */
  datatype Reply = Returned(text: string) | Raised(message: string)

  /** What the service does for one request. */
  datatype Service = Service(upload: Step, reply: Reply, delete: Step)

  /** A call a handler makes to the service. */
  datatype Call =
    | Configure(apiKey: string)                    // genai.configure(api_key=...)
    | UploadFile                                   // genai.upload_file(temp_path)
    | GenerateContent(model: string, prompt: string)
    | DeleteFile                                   // genai.delete_file(uploaded_file.name)

  /** What one request produces: the response and the service calls made, in order. */
  datatype Outcome = Outcome(response: Response, calls: seq<Call>)
}
