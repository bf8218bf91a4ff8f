# dash-gem: the `/analyzeDashboardPic` request pipeline in Dafny

dash-gem's backend has one endpoint, `POST /analyzeDashboardPic`. It takes an optional
dashboard photo and optional free text and asks a Gemini model to explain the warning
lights. This project models the decisions the endpoint makes:

- the multer pre-filter on the declared MIME type and the 10 MiB size limit (`Upload`);
- trimming the user text, with missing or white-space-only text counting as absent;
- composing the prompt from the instruction block and the user text;
- checking the type that mmmagic sniffs from the bytes;
- assembling the ordered `parts` sent to the model: the image first, then one text part;
- rejecting a request with neither file nor text before the model is called;
- mapping the model's result or thrown error to exactly one JSON reply (`Dashboard`).

The collaborators are inputs:

- the sniffer's callback arguments are a `Sniff` value;
- the model call is a `GeminiResult`;
- the instruction block is a string parameter;
- base64 encoding is a function parameter.

`JsString` models the three ECMAScript string built-ins the handler relies on: `trim`,
`startsWith` and `includes`. `Trim` is proved equal to an independent description of
trimming (`IsTrimOf`). `Includes` is proved equal to "occurs at some index".

`Dashboard.AnalyzeDashboardPic` follows the handler step by step. It pushes onto a local
`parts` sequence in the source's order and hands the text push and the model call to
`CallGemini`, as the source's `callGeminiAPI` closure does. It is proved to compute the
specification function `Dashboard.Handle`. The lemmas about `Handle` state each case.
The reply is a single out-parameter and the request an `Option`, so "one reply, at most
one model call" holds by construction.

Facts about the code that the model keeps as they are:

- The code gives several conditions the same status: three replies use 500 and two use 400. Only the messages are distinct (`ErrorMessagesDistinct`).
- The code has no catch-all reply for unexpected internal failures.
- The code composes the prompt before it checks the sniffed type. This has no observable effect.
- The code does not itself reject an empty upload. What happens to one depends on the sniffer input.

## Model

| member | source | states |
|---|---|---|
| `JsString.AsciiWhiteSpace` | backend/app.js:38 | `IsWhiteSpace` is the ECMAScript WhiteSpace and LineTerminator set that `trim` strips; among ASCII characters it holds for exactly tab, LF, VT, FF, CR and space |
| `JsString.StartsWith` | backend/app.js:24 | `s.startsWith(prefix)` holds iff the prefix is no longer than `s` and matches `s` character by character from position 0 |
| `JsString.TrimStart` | backend/app.js:38 | the result is a suffix of the input, everything dropped is white space, and it does not start with white space |
| `JsString.TrimEnd` | backend/app.js:38 | the result is a prefix of the input, everything dropped is white space, and it does not end with white space |
| `JsString.Trim` | backend/app.js:38 | the trimmed text is empty exactly when the input is white space only |
| `JsString.TrimIsTrimOf` | backend/app.js:38 | `trim` yields a slice with only white space around it and no white space at either end |
| `JsString.TrimOfUnique` | backend/app.js:38 | that description determines the result: any string meeting it equals `Trim(s)` |
| `JsString.TrimIdempotent` | backend/app.js:38 | trimming an already trimmed text changes nothing |
| `JsString.Includes` | backend/app.js:65-67 | `includes` is true exactly when the pattern occurs at some index of the message |
| `Upload.Admit` | backend/app.js:20-29 | a file is accepted iff its declared type starts with "image/" and its size is at most 10 MiB; a wrong type is reported before the size |
| `Dashboard.NormalizeText` | backend/app.js:38 | missing text becomes ""; present text becomes its trim; the result is "" exactly when the text is missing or white space only |
| `Dashboard.ComposePrompt` | backend/app.js:47-49 | the prompt always begins with the instruction block; it is exactly the block iff there is no user text, and otherwise continues with a line break and the user text |
| `Dashboard.PromptRoundTrip` | backend/app.js:47-49 | the user text can be read back from the composed prompt unchanged |
| `Dashboard.CheckSniff` | backend/app.js:83-94 | a sniffer error gives 500 "Could not determine file type."; a missing or non-"image/" type gives 400 "Invalid file type. Only images are allowed."; otherwise the sniffed type goes on |
| `Dashboard.IsMissingText` | backend/app.js:63-67 | the `catch` test holds iff the error's name is "TypeError" and its message contains "Cannot read properties of undefined (reading 'text')" at some index |
| `Dashboard.ReplyFor` | backend/app.js:59-76 | success gives 200 with the text; a TypeError whose message contains the missing-text signature gives 500 "Gemini API did not return a text response."; any other error gives 500 with "Gemini API error: " and the message, which stays recoverable; the three kinds never share a reply |
| `Dashboard.Handle` | backend/app.js:37-108 | the model is called exactly when validation passes, and then the reply is its mapped outcome; otherwise the reply is a 400 or 500 error |
| `Dashboard.NoInputRejected` | backend/app.js:103-106 | no file and missing or white-space-only text gives 400 "No text or image provided." and no model call |
| `Dashboard.DetectErrorRejected` | backend/app.js:84-89 | with a file, a sniffer error gives 500 and no model call, whatever the declared type and text |
| `Dashboard.NonImageRejected` | backend/app.js:90-94 | with a file, a missing or non-image sniffed type gives 400 and no model call, whatever the declared type |
| `Dashboard.ImageRequest` | backend/app.js:95-101 | with an image sniffed as "image/...", the parts are exactly the inline data (sniffed type, base64 of the bytes) followed by the prompt |
| `Dashboard.ImageWithoutText` | backend/app.js:95-101 | an image with no user text is still sent, with the bare instruction block as its text part |
| `Dashboard.TextOnlyRequest` | backend/app.js:104-107 | no file and non-blank text sends exactly one text part: the instructions, a line break and the trimmed text |
| `Dashboard.RequestShape` | backend/app.js:51-54 | every request ends with the prompt as its only text part; with a file it is exactly two parts, the inline image first; without one it is the text part alone |
| `Dashboard.DeclaredTypeIgnored` | backend/app.js:80-101 | two files with the same bytes get the same treatment whatever their declared types |
| `Dashboard.ErrorMessagesDistinct` | backend/app.js:69-105 | the five error messages are pairwise distinct for every backend message |
| `Dashboard.CallGemini` | backend/app.js:53-78 | appends the one text part to the parts and replies with the mapped model outcome |
| `Dashboard.AnalyzeDashboardPic` | backend/app.js:37-108 | the handler, run step by step, produces exactly the reply and request of `Handle` |
| `Dashboard.Endpoint` | backend/app.js:20-37 | the handler runs only on requests whose file passed the pre-filter (declared "image/" type, at most 10485760 bytes); other requests are refused, with the reason `Upload.Admit` gives |

## Left out

- Express setup, CORS, body parsers, dotenv and `app.listen` (backend/app.js:1-17, 111-113): HTTP and process plumbing.
- Multer's multipart parsing, and the response Express's default error handler sends when the pre-filter rejects a file: `Endpoint` only says the request is refused and why.
- The internals of mmmagic's `detect`: native code whose signature table is not part of this model. Its callback arguments are an input.
- The Gemini client, the model name "gemini-1.5-pro-002" and the network call: the call's result or thrown error is an input.
- `Buffer.toString("base64")`: a function parameter, since its implementation is not part of this model.
- The wording of the instruction block (backend/app.js:39-46): a parameter.
- Callback and promise scheduling, `console.error` logging and the unused `fs` import.
- A `text` field that is not a string (an array or object from the extended URL-encoded parser), on which `.trim()` would throw: the model takes the field as an optional string.
- Thrown values without a string `message`: the model's thrown error always carries a name and a message.
- Strings are sequences of Unicode scalar values rather than UTF-16 code units. Trimming and substring search agree on both readings for well-formed text.
