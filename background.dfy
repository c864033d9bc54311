/**
 * The service worker's message listener: the crop rectangle it cuts from
 * the screenshot, and the response it sends back for each way the
 * capture-crop-upload chain can end. The foreign calls (tab capture, image
 * decoding and encoding, the HTTP request) are inputs: the model receives
 * their outcomes.
 */
module Background {
  import opened Protocol


  /** Side of the square cut from the screenshot, in physical pixels. */
  const CropSize: real := 400.0
  /** Side of the output canvas: the crop is copied 1:1. */
  const OutputCanvasSize: real := CropSize

  const CaptureFailedMessage: string := "Failed to capture tab"
  const ProcessingFailedMessage: string := "Failed to process screenshot"
  const BackendOfflineMessage: string := "Backend server is offline."

  /** A rectangle of a `drawImage` call: top-left corner and size. */
  datatype Rect = Rect(left: real, top: real, width: real, height: real)

  /**
   * The source rectangle for a logical point and a device pixel ratio: a
   * 400 x 400 square centred on the physical point.
   */
  function CropSource(x: real, y: real, pixelRatio: real): (r: Rect)
    ensures CenterX(r) == x * pixelRatio && CenterY(r) == y * pixelRatio
    ensures r.width == r.height == 400.0
  {
    var xPhys := x * pixelRatio;
    var yPhys := y * pixelRatio;
    Rect(xPhys - CropSize / 2.0, yPhys - CropSize / 2.0, CropSize, CropSize)
  }

  /** The destination rectangle: the whole output canvas. */
  function CanvasRect(): Rect {
    Rect(0.0, 0.0, OutputCanvasSize, OutputCanvasSize)
  }

  function CenterX(r: Rect): real { r.left + r.width / 2.0 }
  function CenterY(r: Rect): real { r.top + r.height / 2.0 }

  /**
   * What the `drawImage` step did: not reached (an earlier stage failed),
   * skipped (an argument was NaN because a message field was missing, and
   * `drawImage` returns without drawing), or copied `source` onto `dest`.
   */
  datatype Crop = NotReached | Skipped | Copied(source: Rect, dest: Rect)

  /**
   * The `drawImage` step for message `m`: the whole canvas receives the
   * square centred on the physical point, or nothing is drawn.
   */
  function CropOf(m: Message): (c: Crop)
    ensures c != NotReached
    ensures c.Copied? <==> m.x.Some? && m.y.Some? && m.pixelRatio.Some?
    ensures c.Copied? ==> c.dest == CanvasRect() && c.source.width == c.dest.width
    ensures c.Copied? ==> CenterX(c.source) == m.x.value * m.pixelRatio.value &&
                          CenterY(c.source) == m.y.value * m.pixelRatio.value
  {
    if m.x.Some? && m.y.Some? && m.pixelRatio.Some? then
      Copied(CropSource(m.x.value, m.y.value, m.pixelRatio.value), CanvasRect())
    else Skipped
  }

  /** How image processing ended once the screenshot was taken. */
  datatype Imaging =
    | DecodeFailed          // fetch, blob or createImageBitmap rejected
    | EncodeFailed          // convertToBlob rejected, after the crop was drawn
    | ReadFailed            // FileReader never fired onload
    | Encoded(dataUrl: string)

  /** How the backend call ended: no answer, or an answer whose body parsed (or not) as JSON. */
  datatype BackendCall = Unreachable | Answered(status: int, json: Option<Value>)

  /**
   * The listener's effect: ignored (returns undefined), or handled (returns
   * true) with the crop it made, the request body it posted, and the value
   * passed to `sendResponse` (`None` if it is never called).
   */
  datatype Handling =
    | Ignored
    | Handled(crop: Crop, request: Option<Value>, response: Option<Value>)

  /** The body posted to the backend: the cropped image and nothing else. */
  function RequestBody(dataUrl: string): Value {
    Obj(map["image_data" := Str(dataUrl)])
  }

  /** The reply passed on to the content script after the request was posted. */
  function Forward(b: BackendCall): Value {
    match b
    case Unreachable => ErrorObject(BackendOfflineMessage)
    case Answered(_, None) => ErrorObject(BackendOfflineMessage)
    case Answered(_, Some(json)) => json
  }

  /** The `onMessage` listener for message `m` and the outcomes of the calls it makes. */
  function OnMessage(m: Message, screenshot: Option<string>, imaging: Imaging, backend: BackendCall): (h: Handling)
    ensures h.Handled? <==> m.action == Some(Str(CaptureAction))
    ensures h.Handled? && h.request.Some? <==>
      h.Handled? && screenshot != None && screenshot != Some("") && imaging.Encoded?
    ensures h.Handled? && h.request.Some? ==> h.request == Some(RequestBody(imaging.dataUrl))
    ensures h.Handled? && h.response.None? ==> imaging == ReadFailed
    ensures h.Handled? && h.crop.Copied? ==> h.crop == CropOf(m) && !imaging.DecodeFailed?
  {
    if m.action != Some(Str(CaptureAction)) then Ignored
    else if screenshot == None || screenshot == Some("") then
      Handled(NotReached, None, Some(ErrorObject(CaptureFailedMessage)))
    else
      match imaging
      case DecodeFailed => Handled(NotReached, None, Some(ErrorObject(ProcessingFailedMessage)))
      case EncodeFailed => Handled(CropOf(m), None, Some(ErrorObject(ProcessingFailedMessage)))
      case ReadFailed => Handled(CropOf(m), None, None)
      case Encoded(dataUrl) => Handled(CropOf(m), Some(RequestBody(dataUrl)), Some(Forward(backend)))
  }

  /** The listener returns true, keeping the response channel open, exactly when it handles the message. */
  predicate ReturnsTrue(h: Handling) {
    h.Handled?
  }

  // ---------------------------------------------------------------------
  // The crop

  /** Source and destination are both 400 x 400: the copy is unscaled. */
  lemma CropUnscaled(m: Message)
    requires CropOf(m).Copied?
    ensures CropOf(m).source.width == CropOf(m).dest.width == 400.0
    ensures CropOf(m).source.height == CropOf(m).dest.height == 400.0
    ensures CropOf(m).dest.left == 0.0 && CropOf(m).dest.top == 0.0
  {
  }

  /**
   * No clamping: near the left or top edge the source origin is negative, and
   * near the right or bottom edge of a width x height screenshot the square
   * extends past it.
   */
  lemma CropNotClamped(x: real, y: real, pixelRatio: real, width: real, height: real)
    ensures x * pixelRatio < 200.0 ==> CropSource(x, y, pixelRatio).left < 0.0
    ensures y * pixelRatio < 200.0 ==> CropSource(x, y, pixelRatio).top < 0.0
    ensures x * pixelRatio + 200.0 > width ==>
      CropSource(x, y, pixelRatio).left + CropSource(x, y, pixelRatio).width > width
    ensures y * pixelRatio + 200.0 > height ==>
      CropSource(x, y, pixelRatio).top + CropSource(x, y, pixelRatio).height > height
  {
  }

  /** The crop is drawn only when the message carries x, y and the pixel ratio. */
  lemma CropNeedsAllFields(m: Message)
    ensures CropOf(m).Copied? <==> m.x.Some? && m.y.Some? && m.pixelRatio.Some?
    ensures CropOf(m).Copied? ==> CenterX(CropOf(m).source) == m.x.value * m.pixelRatio.value
    ensures CropOf(m).Copied? ==> CenterY(CropOf(m).source) == m.y.value * m.pixelRatio.value
  {
  }

  // ---------------------------------------------------------------------
  // The listener

  /** Only `captureAndAnalyze` messages are handled, and for those the listener returns true. */
  lemma HandlesOnlyCapture(m: Message, screenshot: Option<string>, imaging: Imaging, backend: BackendCall)
    ensures ReturnsTrue(OnMessage(m, screenshot, imaging, backend)) <==> m.action == Some(Str("captureAndAnalyze"))
  {
  }

  /** Without a screenshot: exactly the capture error, no crop and no backend call. */
  lemma CaptureFailure(m: Message, screenshot: Option<string>, imaging: Imaging, backend: BackendCall)
    requires m.action == Some(Str(CaptureAction))
    requires screenshot == None || screenshot == Some("")
    ensures OnMessage(m, screenshot, imaging, backend) ==
      Handled(NotReached, None, Some(Obj(map["error" := Str("Failed to capture tab")])))
  {
  }

  /**
   * A failure while decoding or encoding the image gives the processing
   * error, and the backend is not called.
   */
  lemma ProcessingFailure(m: Message, shot: string, imaging: Imaging, backend: BackendCall)
    requires m.action == Some(Str(CaptureAction)) && shot != ""
    requires imaging == DecodeFailed || imaging == EncodeFailed
    ensures var h := OnMessage(m, Some(shot), imaging, backend);
      h.request == None && h.response == Some(Obj(map["error" := Str("Failed to process screenshot")])) &&
      (imaging == DecodeFailed ==> h.crop == NotReached)
  {
  }

  /**
   * Once the image is encoded, the backend gets a body with only
   * `image_data`; a reply whose body parses is passed on unchanged whatever
   * its status, and anything else becomes the offline error.
   */
  lemma BackendRoundTrip(m: Message, shot: string, dataUrl: string, backend: BackendCall)
    requires m.action == Some(Str(CaptureAction)) && shot != ""
    ensures var h := OnMessage(m, Some(shot), Encoded(dataUrl), backend);
      h.request.Some? && h.request.value.Obj? &&
      h.request.value.fields.Keys == {"image_data"} &&
      h.request.value.fields["image_data"] == Str(dataUrl) &&
      (backend.Answered? && backend.json.Some? ==> h.response == backend.json) &&
      (backend.Unreachable? || backend.json.None? ==>
        h.response == Some(Obj(map["error" := Str("Backend server is offline.")])))
  {
  }

  /**
   * The response is sent exactly when the chain does not stall in the
   * FileReader, and every error the listener itself produces is one of the
   * three fixed messages.
   */
  lemma ResponseTaxonomy(m: Message, shot: Option<string>, imaging: Imaging, backend: BackendCall)
    requires m.action == Some(Str(CaptureAction))
    ensures var h := OnMessage(m, shot, imaging, backend);
      (h.response.None? <==> shot != None && shot != Some("") && imaging == ReadFailed) &&
      (h.response.Some? && h.request.None? ==>
        h.response.value == ErrorObject(CaptureFailedMessage) ||
        h.response.value == ErrorObject(ProcessingFailedMessage)) &&
      (h.request.Some? ==>
        (backend.Answered? && h.response == backend.json) ||
        h.response == Some(ErrorObject(BackendOfflineMessage)))
  {
  }
}
