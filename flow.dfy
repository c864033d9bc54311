/**
 * The three parts together: what the content script sends, what the service
 * worker makes of it, what the backend answers, and what the user sees.
 */
module Flow {
  import opened Protocol
  import opened ContentScript
  import Background
  import Backend

  /**
   * What the worker's `fetch` sees of a backend answer. Flask's 500 page is
   * HTML, so `response.json()` rejects on it.
   */
  function AsBackendCall(r: Backend.Reply): Background.BackendCall {
    match r
    case Reply(status, body) => Background.Answered(status, Some(body))
    case ServerError => Background.Answered(500, None)
  }

  /**
   * The worker posts only `image_data`, and the backend requires `x` and `y`
   * too: every upload is answered 400 with the missing-fields error.
   */
  lemma UploadAlwaysRejected(dataUrl: string)
    ensures Backend.HandleOcr(Backend.Parsed(Background.RequestBody(dataUrl))) ==
      Backend.Reply(400, ErrorObject("Missing 'image_data', 'x', or 'y'"))
  {
    var fields := map["image_data" := Str(dataUrl)];
    assert "image_data" in fields && fields != map[];
    assert PyGet(fields, "x") == Null;
  }

  /**
   * The content script's message has no pixel ratio, so the worker multiplies
   * by undefined and `drawImage` draws nothing; the message is still handled.
   */
  lemma TriggerMessageIsNeverCropped(x: int, y: int, shot: string, imaging: Background.Imaging, backend: Background.BackendCall)
    requires shot != "" && !imaging.DecodeFailed?
    ensures var h := Background.OnMessage(CaptureMessage(x, y), Some(shot), imaging, backend);
      h.Handled? && h.crop == Background.Skipped
  {
  }

  /**
   * An error object with a non-empty message replaces the content of the
   * visible dialog with that message as plain text, where the dialog stands.
   */
  lemma ErrorShownVerbatim(p: Page, msg: string)
    requires Consistent(p) && p.isVisible && msg != ""
    ensures CurrentDialog(p).Some?
    ensures var q := Step(p, Reply(Some(ErrorObject(msg))));
      q.isVisible && q.sent == p.sent &&
      CurrentDialog(q) == Some(CurrentDialog(p).value.(content := Plain(msg)))
  {
    FindDialogIffAny(p.nodes);
    var i := FindDialog(p.nodes).value;
    var q := Step(p, Reply(Some(ErrorObject(msg))));
    ReplyFillsDialog(p, Some(ErrorObject(msg)));
    FindDialogIsFirst(q.nodes, i);
  }

  /**
   * The worker's answer to any capture message once the screenshot is
   * encoded: the upload holds only the image, and the backend's rejection is
   * passed back unchanged.
   */
  lemma WorkerRelaysRejection(m: Message, shot: string, dataUrl: string)
    requires m.action == Some(Str(CaptureAction)) && shot != ""
    ensures var answer := Backend.HandleOcr(Backend.Parsed(Background.RequestBody(dataUrl)));
      Background.OnMessage(m, Some(shot), Background.Encoded(dataUrl), AsBackendCall(answer)) ==
        Background.Handled(Background.CropOf(m), Some(Background.RequestBody(dataUrl)),
                           Some(ErrorObject(Backend.MissingFieldsMessage)))
  {
    UploadAlwaysRejected(dataUrl);
  }

  /**
   * End to end with a screenshot that is captured and encoded: the user
   * presses Shift, the worker uploads the image without cropping it, the
   * backend rejects it, and the dialog at the pointer shows the backend's
   * missing-fields error.
   */
  lemma TriggerShowsMissingFields(p: Page, a: Option<Element>, shot: string, dataUrl: string)
    requires Consistent(p) && !p.isVisible && !IsTypingArea(a) && shot != ""
    ensures
      var p1 := Step(p, KeyDown("Shift", a));
      var m := p1.sent[|p1.sent| - 1];
      var h := Background.OnMessage(m, Some(shot), Background.Encoded(dataUrl),
                                    AsBackendCall(Backend.HandleOcr(Backend.Parsed(Background.RequestBody(dataUrl)))));
      m == CaptureMessage(p.mouseX, p.mouseY) &&
      h.request == Some(Background.RequestBody(dataUrl)) &&
      h.crop == Background.Skipped &&
      CurrentDialog(Step(p1, Reply(h.response))) ==
        Some(DialogNode(p.mouseX + 12, p.mouseY + 12, Plain(Backend.MissingFieldsMessage)))
  {
    var p1 := Step(p, KeyDown("Shift", a));
    ShiftKey(p, a);
    StepKeepsConsistent(p, KeyDown("Shift", a));
    var m := CaptureMessage(p.mouseX, p.mouseY);
    assert p1.sent[|p1.sent| - 1] == m;
    WorkerRelaysRejection(m, shot, dataUrl);
    ErrorShownVerbatim(p1, Backend.MissingFieldsMessage);
  }

  /**
   * If the FileReader never fires, `sendResponse` is never called; the
   * callback then receives undefined and, with the dialog open, throws on
   * `response.error`, leaving the loading dialog in place.
   */
  lemma StalledReadLeavesLoading(p: Page, a: Option<Element>, shot: string, backend: Background.BackendCall)
    requires Consistent(p) && !p.isVisible && !IsTypingArea(a) && shot != ""
    ensures
      var p1 := Step(p, KeyDown("Shift", a));
      var h := Background.OnMessage(CaptureMessage(p.mouseX, p.mouseY), Some(shot), Background.ReadFailed, backend);
      h.response == None &&
      ResponseThrows(p1, h.response) &&
      Step(p1, Reply(h.response)) == p1 &&
      CurrentDialog(p1) == Some(DialogNode(p.mouseX + 12, p.mouseY + 12, Loading))
  {
    ShiftKey(p, a);
  }
}
