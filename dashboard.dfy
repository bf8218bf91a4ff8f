/**
 * The `POST /analyzeDashboardPic` route handler: it normalises the optional user
 * text, composes the prompt, checks the sniffed content type of an uploaded image,
 * assembles the ordered content parts, calls the Gemini model at most once and maps
 * its outcome to exactly one JSON reply.
 *
 * The collaborators are inputs: the instruction block is a string parameter, the
 * base64 encoding of the bytes a function parameter, the result of mmmagic's
 * `detect` a `Sniff` value and the result of `generateContent` a `GeminiResult`.
 */
module Dashboard {
  import opened Wrappers
  import opened JsString
  import Upload

  /** `req.file` as multer leaves it: the declared type and the bytes in memory. */
  datatype UploadedFile = UploadedFile(declaredType: string, buffer: seq<bv8>)

  /** The callback arguments of `magic.detect`: an error, or a MIME type that may be missing. */
  datatype Sniff = DetectError | Detected(mimeType: Option<string>)

  /** What `generateContent` followed by `response.text()` produces: text, or a thrown error. */
  datatype GeminiResult = Generated(text: string) | Thrown(name: string, message: string)

  /** An element of the `parts` array sent to the model. */
  datatype Part = InlineData(mimeType: string, data: string) | TextPart(text: string)

  /** The JSON body: `{response}` on success, `{error}` otherwise. */
  datatype Body = ResponseBody(response: string) | ErrorBody(error: string)

  /** One `res.status(status).json(body)`. */
  datatype Reply = Reply(status: int, body: Body)

  /** The reply written and the parts sent to the model, if it was called. */
  datatype Outcome = Outcome(reply: Reply, request: Option<seq<Part>>)

  const NoInputMessage := "No text or image provided."
  const DetectFailedMessage := "Could not determine file type."
  const InvalidTypeMessage := "Invalid file type. Only images are allowed."
  const NoTextMessage := "Gemini API did not return a text response."
  const GeminiErrorPrefix := "Gemini API error: "
  /** The message of the TypeError raised when the model's response carries no text. */
  const MissingTextSignature := "Cannot read properties of undefined (reading 'text')"

  /**
   * `req.body.text ? req.body.text.trim() : ""`: a missing or empty field is "",
   * anything else is trimmed, so white space alone also ends up as "".
   */
  function NormalizeText(text: Option<string>): (t: string)
    ensures text.None? ==> t == []
    ensures text.Some? ==> IsTrimOf(text.value, t)
    ensures t == [] <==> text.None? || AllWhiteSpace(text.value)
  {
    match text
    case None => []
    case Some(s) =>
      TrimIsTrimOf(s);
      if s == [] then [] else Trim(s)
  }

  /** `combinedPrompt`: the instruction block, then a line break and the user text if there is any. */
  function ComposePrompt(instructions: string, userText: string): (p: string)
    ensures |instructions| <= |p| && p[..|instructions|] == instructions
    ensures p == instructions <==> userText == []
    ensures userText != [] ==> p[|instructions|] == '\n' && p[|instructions| + 1..] == userText
  {
    if userText != [] then instructions + "\n" + userText else instructions
  }

  /** Reads the user text back out of a composed prompt. */
  function UserTextOf(instructions: string, prompt: string): (u: string)
    requires |instructions| <= |prompt|
  {
    if |prompt| == |instructions| then [] else prompt[|instructions| + 1..]
  }

  /** The user text survives prompt composition intact. */
  lemma PromptRoundTrip(instructions: string, userText: string)
    ensures UserTextOf(instructions, ComposePrompt(instructions, userText)) == userText
  {
  }

  /** The `detect` callback's checks: an error, then a missing or non-image type. */
  function CheckSniff(sniff: Sniff): (r: Result<string, Reply>)
    ensures r.Ok? <==> sniff.Detected? && sniff.mimeType.Some? && StartsWith(sniff.mimeType.value, "image/")
    ensures r.Ok? ==> r.value == sniff.mimeType.value
    ensures sniff.DetectError? ==> r == Err(Reply(500, ErrorBody(DetectFailedMessage)))
    ensures sniff.Detected? && r.Err? ==> r == Err(Reply(400, ErrorBody(InvalidTypeMessage)))
  {
    match sniff
    case DetectError => Err(Reply(500, ErrorBody(DetectFailedMessage)))
    case Detected(mimeType) =>
      if mimeType.None? || !StartsWith(mimeType.value, "image/") then
        Err(Reply(400, ErrorBody(InvalidTypeMessage)))
      else
        Ok(mimeType.value)
  }

  /** The error test in the `catch` of `callGeminiAPI`. */
  predicate IsMissingText(name: string, message: string)
    ensures IsMissingText(name, message) <==>
      name == "TypeError" && exists k :: OccursAt(message, MissingTextSignature, k)
  {
    name == "TypeError" && Includes(message, MissingTextSignature)
  }

  /**
   * The success and `catch` branches of `callGeminiAPI`. The three kinds of outcome
   * give three distinguishable replies, and a backend error keeps its message.
   */
  function ReplyFor(result: GeminiResult): (r: Reply)
    ensures r.status == 200 <==> result.Generated?
    ensures result.Generated? ==> r.body == ResponseBody(result.text)
    ensures result.Thrown? ==> r.status == 500 && r.body.ErrorBody?
    ensures result.Thrown? ==>
      (r.body.error == NoTextMessage <==>
         result.name == "TypeError" && exists k :: OccursAt(result.message, MissingTextSignature, k))
    ensures result.Thrown? && r.body.error != NoTextMessage ==>
      StartsWith(r.body.error, GeminiErrorPrefix) && r.body.error[|GeminiErrorPrefix|..] == result.message
  {
    match result
    case Generated(text) => Reply(200, ResponseBody(text))
    case Thrown(name, message) =>
      if IsMissingText(name, message) then
        Reply(500, ErrorBody(NoTextMessage))
      else
        var e := GeminiErrorPrefix + message;
        assert e[11] == 'e' && NoTextMessage[11] == 'd';
        Reply(500, ErrorBody(e))
  }

  /**
   * The whole handler as a value: which reply is written and which parts, if any,
   * go to the model. The model is called exactly when validation passes, and then
   * the reply is the mapped model outcome; otherwise the reply is an error with
   * status 400 or 500. `AnalyzeDashboardPic` is proved to compute it; the lemmas
   * below state the individual cases.
   */
  function Handle(instructions: string, base64: seq<bv8> -> string, text: Option<string>,
                  file: Option<UploadedFile>, sniff: Sniff, gemini: GeminiResult): (o: Outcome)
    ensures o.request.Some? <==>
      if file.Some? then sniff.Detected? && sniff.mimeType.Some? && StartsWith(sniff.mimeType.value, "image/")
      else !(text.None? || AllWhiteSpace(text.value))
    ensures o.request.Some? ==> o.reply == ReplyFor(gemini)
    ensures o.request.None? ==> o.reply.status in {400, 500} && o.reply.body.ErrorBody?
  {
    var userText := NormalizeText(text);
    var prompt := ComposePrompt(instructions, userText);
    match file
    case Some(f) =>
      (match CheckSniff(sniff)
       case Err(reply) => Outcome(reply, None)
       case Ok(mimeType) => Outcome(ReplyFor(gemini), Some([InlineData(mimeType, base64(f.buffer)), TextPart(prompt)])))
    case None =>
      if userText == [] then Outcome(Reply(400, ErrorBody(NoInputMessage)), None)
      else Outcome(ReplyFor(gemini), Some([TextPart(prompt)]))
  }

  /** No file and no text after trimming: 400, and the model is not called. */
  lemma NoInputRejected(instructions: string, base64: seq<bv8> -> string, text: Option<string>,
                        sniff: Sniff, gemini: GeminiResult)
    requires text.None? || AllWhiteSpace(text.value)
    ensures Handle(instructions, base64, text, None, sniff, gemini)
         == Outcome(Reply(400, ErrorBody(NoInputMessage)), None)
  {
  }

  /** A failing sniffer gives 500 before any call, whatever the declared type and the text. */
  lemma DetectErrorRejected(instructions: string, base64: seq<bv8> -> string, text: Option<string>,
                            f: UploadedFile, gemini: GeminiResult)
    ensures Handle(instructions, base64, text, Some(f), DetectError, gemini)
         == Outcome(Reply(500, ErrorBody(DetectFailedMessage)), None)
  {
  }

  /** A missing or non-image sniffed type gives 400 before any call, whatever the declared type. */
  lemma NonImageRejected(instructions: string, base64: seq<bv8> -> string, text: Option<string>,
                         f: UploadedFile, mimeType: Option<string>, gemini: GeminiResult)
    requires mimeType.None? || !StartsWith(mimeType.value, "image/")
    ensures Handle(instructions, base64, text, Some(f), Detected(mimeType), gemini)
         == Outcome(Reply(400, ErrorBody(InvalidTypeMessage)), None)
  {
  }

  /** An image whose sniffed type starts with "image/" is sent first, with the sniffed type, then the one text part. */
  lemma ImageRequest(instructions: string, base64: seq<bv8> -> string, text: Option<string>,
                     f: UploadedFile, mimeType: string, gemini: GeminiResult)
    requires StartsWith(mimeType, "image/")
    ensures Handle(instructions, base64, text, Some(f), Detected(Some(mimeType)), gemini)
         == Outcome(ReplyFor(gemini), Some([InlineData(mimeType, base64(f.buffer)),
                                            TextPart(ComposePrompt(instructions, NormalizeText(text)))]))
  {
  }

  /** No file and some text: exactly one text part, instructions then a line break then the trimmed text. */
  lemma TextOnlyRequest(instructions: string, base64: seq<bv8> -> string, text: string,
                        sniff: Sniff, gemini: GeminiResult)
    requires !AllWhiteSpace(text)
    ensures Handle(instructions, base64, Some(text), None, sniff, gemini)
         == Outcome(ReplyFor(gemini), Some([TextPart(instructions + "\n" + Trim(text))]))
  {
  }

  /**
   * Every request is the prompt as the one text part, last, preceded by at most one
   * part: the inline image, present only when a file was uploaded.
   */
  lemma RequestShape(instructions: string, base64: seq<bv8> -> string, text: Option<string>,
                     file: Option<UploadedFile>, sniff: Sniff, gemini: GeminiResult)
    ensures var o := Handle(instructions, base64, text, file, sniff, gemini);
      var prompt := TextPart(ComposePrompt(instructions, NormalizeText(text)));
      o.request.Some? ==>
        if file.Some? then |o.request.value| == 2 && o.request.value[0].InlineData? && o.request.value[1] == prompt
        else o.request.value == [prompt]
  {
  }

  /** An image with no user text is still sent, with the instruction block as the only text. */
  lemma ImageWithoutText(instructions: string, base64: seq<bv8> -> string, text: Option<string>,
                         f: UploadedFile, mimeType: string, gemini: GeminiResult)
    requires text.None? || AllWhiteSpace(text.value)
    requires StartsWith(mimeType, "image/")
    ensures Handle(instructions, base64, text, Some(f), Detected(Some(mimeType)), gemini)
         == Outcome(ReplyFor(gemini), Some([InlineData(mimeType, base64(f.buffer)), TextPart(instructions)]))
  {
  }

  /** The declared type of an uploaded file plays no part in what the handler does. */
  lemma DeclaredTypeIgnored(instructions: string, base64: seq<bv8> -> string, text: Option<string>,
                            f: UploadedFile, g: UploadedFile, sniff: Sniff, gemini: GeminiResult)
    requires f.buffer == g.buffer
    ensures Handle(instructions, base64, text, Some(f), sniff, gemini)
         == Handle(instructions, base64, text, Some(g), sniff, gemini)
  {
  }

  /** The five error messages are pairwise distinct, whatever the backend's message. */
  lemma ErrorMessagesDistinct(message: string)
    ensures |{NoInputMessage, DetectFailedMessage, InvalidTypeMessage, NoTextMessage, GeminiErrorPrefix + message}| == 5
  {
    var e := GeminiErrorPrefix + message;
    assert e[0] == 'G' && e[11] == 'e';
  }

  /** `callGeminiAPI`: push the text part, call the model once, write one reply. */
  method CallGemini(parts: seq<Part>, prompt: string, gemini: GeminiResult) returns (reply: Reply, sent: seq<Part>)
    ensures sent == parts + [TextPart(prompt)]
    ensures reply == ReplyFor(gemini)
  {
    sent := parts + [TextPart(prompt)];
    match gemini
    case Generated(responseText) =>
      reply := Reply(200, ResponseBody(responseText));
    case Thrown(name, message) =>
      if IsMissingText(name, message) {
        reply := Reply(500, ErrorBody(NoTextMessage));
      } else {
        reply := Reply(500, ErrorBody(GeminiErrorPrefix + message));
      }
  }

  /** The route handler, step by step as the source runs it. */
  method AnalyzeDashboardPic(instructions: string, base64: seq<bv8> -> string, text: Option<string>,
                             file: Option<UploadedFile>, sniff: Sniff, gemini: GeminiResult)
    returns (reply: Reply, request: Option<seq<Part>>)
    ensures Outcome(reply, request) == Handle(instructions, base64, text, file, sniff, gemini)
  {
    var userText := NormalizeText(text);
    var combinedPrompt := ComposePrompt(instructions, userText);
    var parts: seq<Part> := [];
    if file.Some? {
      if sniff.DetectError? {
        return Reply(500, ErrorBody(DetectFailedMessage)), None;
      }
      var mimeType := sniff.mimeType;
      if mimeType.None? || !StartsWith(mimeType.value, "image/") {
        return Reply(400, ErrorBody(InvalidTypeMessage)), None;
      }
      assert CheckSniff(sniff) == Ok(mimeType.value);
      parts := parts + [InlineData(mimeType.value, base64(file.value.buffer))];
      var sent;
      reply, sent := CallGemini(parts, combinedPrompt, gemini);
      request := Some(sent);
      assert sent == [InlineData(mimeType.value, base64(file.value.buffer)), TextPart(combinedPrompt)];
      assert Handle(instructions, base64, text, file, sniff, gemini) == Outcome(ReplyFor(gemini), Some(sent));
    } else {
      if userText == [] {
        return Reply(400, ErrorBody(NoInputMessage)), None;
      }
      var sent;
      reply, sent := CallGemini(parts, combinedPrompt, gemini);
      request := Some(sent);
      assert sent == [TextPart(combinedPrompt)];
      assert Handle(instructions, base64, text, file, sniff, gemini) == Outcome(ReplyFor(gemini), Some(sent));
    }
  }

  /** What a request to the endpoint yields: refused by the upload stage, or handled. */
  datatype Served = Refused(reason: Upload.Admission) | Handled(outcome: Outcome)

  /** The upload pre-filter followed by the route handler. */
  function Endpoint(instructions: string, base64: seq<bv8> -> string, text: Option<string>,
                    file: Option<UploadedFile>, sniff: Sniff, gemini: GeminiResult): (s: Served)
    ensures s.Refused? <==> file.Some? && !(StartsWith(file.value.declaredType, "image/") && |file.value.buffer| <= 10485760)
    ensures s.Refused? ==> s.reason == Upload.Admit(file.value.declaredType, |file.value.buffer|)
    ensures s.Handled? ==> s.outcome == Handle(instructions, base64, text, file, sniff, gemini)
  {
    if file.Some? && Upload.Admit(file.value.declaredType, |file.value.buffer|) != Upload.Accepted then
      Refused(Upload.Admit(file.value.declaredType, |file.value.buffer|))
    else
      Handled(Handle(instructions, base64, text, file, sniff, gemini))
  }
}
