# AlphaOCR overlay, capture pipeline and stub backend — a Dafny model

AlphaOCR is a browser extension prototype. The user presses Shift over a web
page. The content script opens a small dialog at the pointer and asks the
extension's service worker to analyse what is under the pointer. The service
worker screenshots the tab, cuts a 400 x 400 square around the pointer, and
posts it to a local Flask server. The server answers with a stub
"text / furigana / translation" result or a 400 error. The reply travels back
and is shown in the dialog.

The model covers the logic of the three parts:

- `protocol.dfy` (`Protocol`): JSON values as the three programs see them.
  This covers JavaScript and Python truthiness, JavaScript `String()`, Python
  `str()` of scalars, property lookup, the `{error: ...}` object and the
  runtime message.
- `html_escape.dfy` (`HtmlEscape`): `escapeHtml`, defined as the chain of three
  global replaces. It is proved equal to a one-pass reference definition.
  Further lemmas prove that its output has no angle brackets, that every `&`
  begins an entity, its exact length, that it leaves plain text unchanged,
  and that decoding it restores the input.
- `content_script.dfy` (`ContentScript`): `isTypingArea`, and the overlay state
  machine.
  - `Page` holds the globals `mouseX`, `mouseY` and `isVisible`, the document's
    top-level nodes, and the messages sent so far.
  - `Step` gives the meaning of each event.
  - The class `Overlay` implements each handler and helper imperatively. Each
    method is proved to produce exactly the state that `Step`, `Show`, `Hide`,
    `SetContent` or `ShowText` gives.
  - Lemmas prove the invariants: at most one dialog, `isVisible` exactly when
    it exists, and the page's own nodes untouched. They also prove the toggle
    behaviour, dismissal, and the stale-response guard with its limits.
- `background.dfy` (`Background`): the crop rectangle and the service worker's
  `onMessage` listener. The listener is a function of the outcomes of the
  foreign calls (tab capture, image decoding and encoding, the file reader,
  the HTTP call). It gives the crop made, the request posted and the response
  sent.
- `backend.dfy` (`Backend`): `handle_ocr`. It maps the parsed request to a
  status and a JSON body, or to an uncaught exception, which Flask serves as
  a 500 page.
- `flow.dfy` (`Flow`): the three parts composed. The worker never sends `x` and
  `y`, so the backend always rejects the upload. The content script never
  sends `pixelRatio`, so no crop is ever drawn. When the tab is captured, the
  image is encoded and the server answers, a Shift press therefore ends with
  the missing-fields error in the dialog. A failed capture, a failed image
  step and an unreachable server each show their own error instead. If the
  file reader never fires, the dialog stays on its loading text.

### Where the code and its comments disagree

The comments in `background.js` describe a crop of the physical pixels under
the cursor, using `message.pixelRatio`. The content script sends only
`action`, `x` and `y`. The product `x * undefined` is NaN, and `drawImage`
with a NaN argument draws nothing. The model follows the code:
`Background.CropOf` is `Skipped` when a field is missing, and
`Flow.TriggerMessageIsNeverCropped` proves that this is always the case.

The backend's docstring says it receives image data and cursor coordinates.
The worker posts only `image_data`, and `Flow.UploadAlwaysRejected` proves
the consequence.

## Model

| member | source | states |
|---|---|---|
| HtmlEscape.ReplaceAll | content_script.js:169 | a global replace leaves text without the pattern unchanged, removes the pattern when the replacement lacks it, and never shortens |
| HtmlEscape.EscapeText | content_script.js:169 | the replace chain leaves no `<` or `>`, never shortens, and leaves text without `&`, `<` and `>` unchanged |
| HtmlEscape.EscapeHtml | content_script.js:167-170 | null and undefined give the empty string |
| HtmlEscape.EscapeTextIsEscapeEach | content_script.js:169 | the `&`, `<`, `>` replace chain equals escaping each character on its own, left to right |
| HtmlEscape.EscapedHasNoAngleBrackets | content_script.js:169 | the escaped text contains no `<` and no `>` |
| HtmlEscape.EscapedAmpersandsBeginEntities | content_script.js:169 | every `&` in the escaped text begins `&amp;`, `&lt;` or `&gt;` |
| HtmlEscape.EscapedLength | content_script.js:169 | output length is the input length plus 4 per `&` and 3 per `<` or `>` |
| HtmlEscape.EscapeFixesExactlyPlainText | content_script.js:169 | the output equals the input exactly when the input has no `&`, `<` or `>`, so quotes and every other character pass through |
| HtmlEscape.UnescapeEscapeText | content_script.js:169 | decoding the three entities gives back the input, so escaping loses nothing |
| HtmlEscape.EscapeTextInjective | content_script.js:169 | different texts escape differently |
| ContentScript.ToLower | content_script.js:124 | same length; no capital A–Z is left; every other character is kept; each capital becomes its lower-case letter |
| ContentScript.ToLowerIdempotent | content_script.js:124 | lower-casing twice is lower-casing once |
| ContentScript.ToLowerMatches | content_script.js:124-125 | for a lower-case word, the lower-cased tag equals it exactly when the tag spells the word, each letter in either case |
| ContentScript.IsTypingArea | content_script.js:122-128 | null is never a typing area; a content-editable element always is; otherwise a tag of any length but 5 or 8 (or none) is not |
| ContentScript.TypingAreaByTag | content_script.js:122-128 | null is not a typing area; an element is one exactly when it is content-editable or its tag spells `input` or `textarea` in any case |
| ContentScript.FindDialog | content_script.js:114 | `getElementById` finds the first dialog node, and finds none only when there is none |
| ContentScript.FindDialogIffAny | content_script.js:114 | a dialog is found exactly when the document holds one |
| ContentScript.RemoveDialogCounts | content_script.js:113-117 | removing the found dialog lowers the dialog count by one and keeps the page's own nodes |
| ContentScript.Hide | content_script.js:113-117 | `hideDialog` clears `isVisible`, keeps the pointer and the messages, removes exactly one node when a dialog exists and nothing otherwise |
| ContentScript.Show | content_script.js:72-108 | `showDialog(x, y)` sets `isVisible`, sends nothing, and ends the document with a loading dialog at (x+12, y+12) |
| ContentScript.SetContent | content_script.js:133-162 | filling the container changes only the content of the found dialog, keeping its position, visibility, messages and every page node; with no dialog nothing changes |
| ContentScript.ShowText | content_script.js:133-145 | `updateDialog` shows plain text: `...` for a falsy value, a string as it is |
| ContentScript.Respond | content_script.js:33-50 | the callback does nothing while idle or on null or undefined, and never changes visibility, the pointer, the messages or the number of nodes |
| ContentScript.KeyDownStep | content_script.js:16-57 | keys other than Shift and Escape, and Shift while typing, change nothing; exactly one message is sent exactly on Shift outside a typing area while idle; Escape, or Shift outside a typing area, hides a visible dialog |
| ContentScript.MouseDownStep | content_script.js:60-67 | a click inside the dialog or while idle changes nothing; a click never sends; a click outside a visible dialog hides it |
| ContentScript.HideClears | content_script.js:113-117 | after `hideDialog` there is no dialog, `isVisible` is false, and the pointer, messages and page nodes are unchanged |
| ContentScript.HideIdempotent | content_script.js:113-117 | hiding twice is hiding once |
| ContentScript.ShowPlacesOneDialog | content_script.js:72-108 | after `showDialog(x, y)` exactly one dialog exists, at (x+12, y+12) and loading; `isVisible` is true; nothing is sent |
| ContentScript.SetContentCounts | content_script.js:133-162 | filling the container changes neither visibility, nor the dialog count, nor the page's own nodes |
| ContentScript.StepKeepsConsistent | content_script.js:10-67 | every event keeps at most one dialog, `isVisible` exactly when one exists, and the page's own nodes |
| ContentScript.RespondKeepsConsistent | content_script.js:33-50 | the response callback keeps the same invariant |
| ContentScript.RunKeepsConsistent | content_script.js:10-67 | any sequence of events keeps it, so there is never more than one dialog |
| ContentScript.InitialConsistent | content_script.js:4-7 | the script starts idle on a page without a dialog |
| ContentScript.ShiftKey | content_script.js:16-33 | Shift in a typing area does nothing; Shift while visible hides and sends nothing; Shift while idle shows a loading dialog at the pointer and sends exactly one message with the pointer position |
| ContentScript.ToggleLaw | content_script.js:16-33 | Shift, Shift from idle leaves no dialog and exactly one message sent |
| ContentScript.DismissalHides | content_script.js:53-67 | Escape (even while typing), Shift outside a typing area, or a click outside hides a visible dialog without sending; a click inside changes nothing |
| ContentScript.IdleIgnoresDismissal | content_script.js:53-67 | a click or Escape while idle changes nothing |
| ContentScript.LateReplySuppressed | content_script.js:35 | a reply that arrives after a dismissal leaves the page as the dismissal left it |
| ContentScript.StaleReplyFillsNewerDialog | content_script.js:35 | the guard tests only `isVisible`, so a reply to a dismissed request fills a dialog opened later |
| ContentScript.ReplyFillsDialog | content_script.js:35-49 | on a visible dialog, a reply with truthy `text` becomes the escaped furigana, text and translation; null or undefined throws and changes nothing; anything else shows `response.error`, or the failure text when `error` is falsy |
| ContentScript.EscapeHtmlIsSafe | content_script.js:167-170 | `escapeHtml` output has no `<` or `>` and decodes to `String(v)`, or to nothing for null and undefined |
| ContentScript.RichContentIsEscaped | content_script.js:37-45 | the furigana, text and translation all reach the dialog with no `<` or `>`, and each decodes back to its field |
| ContentScript.Overlay.constructor | content_script.js:4-7 | the globals start at 0, 0, not visible, on the host document |
| ContentScript.Overlay.HideDialog | content_script.js:113-117 | the state becomes `Hide` of the old state |
| ContentScript.Overlay.ShowDialog | content_script.js:72-108 | the state becomes `Show` of the old state at (x, y) |
| ContentScript.Overlay.UpdateDialog | content_script.js:133-145 | the container shows the text, or `...` when it is falsy |
| ContentScript.Overlay.UpdateDialogHtml | content_script.js:150-162 | the container shows the rich result |
| ContentScript.Overlay.OnMouseMove | content_script.js:10-13 | the pointer position is recorded and the invariant is kept |
| ContentScript.Overlay.OnKeyDown | content_script.js:16-57 | the keydown listener reaches the state `Step` gives and keeps the invariant |
| ContentScript.Overlay.OnMouseDown | content_script.js:60-67 | the mousedown listener reaches the state `Step` gives and keeps the invariant |
| ContentScript.Overlay.OnResponse | content_script.js:33-50 | the callback reaches the state `Step` gives, and throws exactly on null or undefined while visible |
| Background.CropOf | background.js:41-57 | the crop is drawn exactly when x, y and the pixel ratio are present; it then fills the whole canvas from a square of the same size centred on the physical point |
| Background.OnMessage | background.js:6-109 | only `captureAndAnalyze` is handled; an upload happens exactly when the capture succeeded and the image was encoded, and it carries that image; no response is sent only when the file reader stalls; a crop is drawn only after decoding succeeded |
| Background.CropSource | background.js:41-47 | the source square is 400 x 400 and centred on (x·pr, y·pr) |
| Background.CropUnscaled | background.js:24-57 | source and destination are both 400 x 400 and the destination starts at (0, 0), so the copy is 1:1 |
| Background.CropNotClamped | background.js:46-47 | near the top or left edge the origin is negative, and near the right or bottom edge the square goes past the screenshot |
| Background.CropNeedsAllFields | background.js:41-57 | the crop is drawn exactly when the message has x, y and the pixel ratio, and is then centred on the physical point |
| Background.HandlesOnlyCapture | background.js:9-108 | the listener handles a message, returning true, exactly when its action is `captureAndAnalyze` |
| Background.CaptureFailure | background.js:13-17 | no screenshot gives exactly `{error: "Failed to capture tab"}`, with no crop and no upload |
| Background.ProcessingFailure | background.js:29-99 | a decoding or encoding failure gives `{error: "Failed to process screenshot"}` and no upload |
| Background.BackendRoundTrip | background.js:66-91 | the upload carries only `image_data`; a JSON answer is forwarded unchanged whatever its status; anything else gives `{error: "Backend server is offline."}` |
| Background.ResponseTaxonomy | background.js:13-99 | a response is sent unless the file reader never fires; without an upload it is one of the two fixed errors; after an upload it is the backend's JSON or the offline error |
| Backend.HandleOcr | app.py:15-59 | every JSON answer is 200 or 400 with an object body; 200 exactly for accepted requests; a 400 body holds only a string `error` |
| Backend.ReplyShape | app.py:22-59 | every JSON reply is 200 or 400; 400 exactly when the body has an `error` key, which is then its only key; 200 exactly when the request is accepted |
| Backend.NoPayload | app.py:24-27 | a missing or empty payload gives 400 `No JSON payload` |
| Backend.InvalidJson | app.py:29-31 | a parse failure gives 400 with its message after `Invalid JSON format: ` |
| Backend.MissingFields | app.py:35-42 | a falsy `image_data`, or a null or missing `x` or `y`, gives 400 with the missing-fields error, unless the error log cannot slice a truthy `image_data` |
| Backend.ZeroCoordinatesAccepted | app.py:40 | zero coordinates are accepted because they are tested with `is None`; a null one is rejected |
| Backend.EmptyImageRejected | app.py:40 | an empty `image_data` is rejected even when both coordinates are present |
| Backend.SuccessBody | app.py:44-59 | an accepted request gets 200 and exactly `text`, `furigana` and `translation`, with no `error`, and the translation quotes x and y |
| Backend.TranslationQuotesIntegers | app.py:55 | integer coordinates appear in decimal in the translation |
| Backend.ServerErrorCases | app.py:35-44 | the handler raises exactly for a truthy non-dict payload, or when a log line gets an `image_data` it cannot slice or measure |
| Flow.UploadAlwaysRejected | background.js:76-78 | the worker's body, which has only `image_data`, always gets 400 with the missing-fields error from `handle_ocr` |
| Flow.WorkerRelaysRejection | background.js:66-91 | once the screenshot is encoded, the worker uploads only the image and hands the backend's missing-fields rejection back unchanged |
| Flow.TriggerMessageIsNeverCropped | content_script.js:29-33 | the content script's message has no pixel ratio, so the worker never draws a crop but still handles the message |
| Flow.ErrorShownVerbatim | content_script.js:48 | an error object with a non-empty message puts that message, as plain text, into the visible dialog where it stands |
| Flow.TriggerShowsMissingFields | content_script.js:16-50 | with capture and encoding working, Shift from idle sends one message and uploads without a crop; the dialog at the pointer then shows `Missing 'image_data', 'x', or 'y'` |
| Flow.StalledReadLeavesLoading | background.js:66-93 | if the file reader never fires, no response is sent; the undefined callback argument throws, and the loading dialog stays |

## Left out

- The Chrome extension APIs (`sendMessage`, `onMessage`, `captureVisibleTab`) are left out. Their outcomes are parameters: the screenshot, an `Imaging` outcome, a `BackendCall` outcome, and a `Reply` event.
- `fetch`, blobs, `createImageBitmap`, canvas pixels and `FileReader` are not modelled. The crop is a rectangle, not pixels.
- The markup is not modelled: CSS values, the `innerHTML` templates and the loading text. Dialog content is `Loading`, `Rich` or `Plain`.
- Flask and CORS setup, server start-up, `print` and `console` logging are left out. The exception is a log line whose evaluation raises, which is modelled.
- Floating point, NaN and JavaScript numeric coercion are not modelled. Coordinates are integers in the content script and reals in the worker, and a missing message field stands for NaN.
- Timing and concurrency: a reply is one event in the event sequence, and overlapping requests are interleavings of events.
- The page's own DOM changes are not modelled, and neither is clicking by position. A click carries whether its target lies inside the dialog.
- A page whose own nodes reuse the script's ids is excluded by `HostPage`.
- ContentScript.ToLower: folds only A–Z. The tags `input` and `textarea` can be matched only through those letters, except U+212A KELVIN SIGN, which lower-cases to `k` and does not occur in them.
- Protocol.PyStr: renders list and dict coordinates as the empty string instead of Python's `repr`. Floats are not modelled.
- Protocol.JsString: does not produce JavaScript's exponent notation for integers of 10^21 or more.
- Background.OnMessage: a capture that yields a non-empty string is treated as a PNG data URL. A data URL that fails to decode is the `DecodeFailed` outcome.
