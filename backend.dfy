/**
 * The stub backend's `/ocr-and-translate` handler: how a request's JSON is
 * validated and which status and body come back. Flask's parsing of the
 * request body is an input (a parsed value, or the message of the exception
 * it raised); logging is left out except where evaluating a log line raises.
 */
module Backend {
  import opened Protocol

  /** What `request.json` gave: a parsed value, or an exception with its message. */
  datatype JsonBody = Malformed(reason: string) | Parsed(data: Value)

  /**
   * The handler's answer: a JSON reply with a status, or an exception that
   * escapes the handler, which Flask turns into its own 500 error page.
   */
  datatype Reply = Reply(status: int, body: Value) | ServerError

  const NoPayloadMessage: string := "No JSON payload"
  const InvalidJsonPrefix: string := "Invalid JSON format: "
  const MissingFieldsMessage: string := "Missing 'image_data', 'x', or 'y'"
  const StubText: string := "日本語 (Stub)"
  const StubFurigana: string := "にほんご (Stub)"

  /** `image_data_url[-20:]` works: strings and lists can be sliced. */
  predicate Sliceable(v: Value) {
    v.Str? || v.Arr?
  }

  /** `len(image_data_url)` works: strings, lists and dicts have a length. */
  predicate Sized(v: Value) {
    v.Str? || v.Arr? || v.Obj?
  }

  /** The stub answer, which quotes the received coordinates. */
  function StubBody(x: Value, y: Value): Value {
    Obj(map[
      "text" := Str(StubText),
      "furigana" := Str(StubFurigana),
      "translation" := Str("Success! Received click at (x=" + PyStr(x) + ", y=" + PyStr(y) + "). Backend is connected.")
    ])
  }

  /**
   * `handle_ocr()`: every JSON answer is 200 or 400 with an object body; the
   * 200 answers are exactly the accepted requests, and every 400 body holds
   * only an error message.
   */
  function HandleOcr(request: JsonBody): (r: Reply)
    ensures r.Reply? ==> (r.status == 200 || r.status == 400) && r.body.Obj?
    ensures r.Reply? && r.status == 200 <==> Accepted(request)
    ensures r.Reply? && r.status == 400 ==> r.body.fields.Keys == {"error"} && r.body.fields["error"].Str?
  {
    match request
    case Malformed(reason) => Reply(400, ErrorObject(InvalidJsonPrefix + reason))
    case Parsed(data) =>
      if !PyTruthy(data) then Reply(400, ErrorObject(NoPayloadMessage))
      // `data.get` on a non-empty list, string, number or True raises AttributeError
      else if !data.Obj? then ServerError
      else
        var image := PyGet(data.fields, "image_data");
        var x := PyGet(data.fields, "x");
        var y := PyGet(data.fields, "y");
        if !PyTruthy(image) || x == Null || y == Null then
          // the error log slices a truthy image_data
          if PyTruthy(image) && !Sliceable(image) then ServerError
          else Reply(400, ErrorObject(MissingFieldsMessage))
        // the success log takes len(image_data)
        else if !Sized(image) then ServerError
        else Reply(200, StubBody(x, y))
  }

  /** The request is accepted: a non-empty dict with a truthy, sized image and both coordinates present. */
  predicate Accepted(request: JsonBody) {
    request.Parsed? && request.data.Obj? &&
    PyTruthy(PyGet(request.data.fields, "image_data")) && Sized(PyGet(request.data.fields, "image_data")) &&
    PyGet(request.data.fields, "x") != Null && PyGet(request.data.fields, "y") != Null
  }

  // ---------------------------------------------------------------------
  // Lemmas

  /** Every JSON reply is 200 or 400; 400 exactly when the body has an `error` key, 200 exactly when accepted. */
  lemma ReplyShape(request: JsonBody)
    ensures var r := HandleOcr(request);
      r.Reply? ==>
        (r.status == 200 || r.status == 400) &&
        r.body.Obj? &&
        (r.status == 400 <==> "error" in r.body.fields) &&
        (r.status == 400 ==> r.body.fields.Keys == {"error"} && r.body.fields["error"].Str?)
    ensures HandleOcr(request).Reply? && HandleOcr(request).status == 200 <==> Accepted(request)
  {
  }

  /** A missing or empty payload (null, false, 0, "", [], {}) gives 400 "No JSON payload". */
  lemma NoPayload(data: Value)
    requires !PyTruthy(data)
    ensures HandleOcr(Parsed(data)) == Reply(400, Obj(map["error" := Str("No JSON payload")]))
  {
  }

  /** A body Flask cannot parse gives 400 with the exception's text after "Invalid JSON format: ". */
  lemma InvalidJson(reason: string)
    ensures var r := HandleOcr(Malformed(reason));
      r.Reply? && r.status == 400 && Get(r.body, "error") == Some(Str("Invalid JSON format: " + reason))
  {
  }

  /**
   * A non-empty dict without a truthy `image_data`, or with `x` or `y` missing
   * or null, gives 400 with the missing-fields error, unless logging the
   * truthy but unsliceable `image_data` raises first.
   */
  lemma MissingFields(fields: map<string, Value>)
    requires fields != map[]
    requires !PyTruthy(PyGet(fields, "image_data")) || PyGet(fields, "x") == Null || PyGet(fields, "y") == Null
    ensures !PyTruthy(PyGet(fields, "image_data")) || Sliceable(PyGet(fields, "image_data")) ==>
      HandleOcr(Parsed(Obj(fields))) == Reply(400, Obj(map["error" := Str("Missing 'image_data', 'x', or 'y'")]))
    ensures PyTruthy(PyGet(fields, "image_data")) && !Sliceable(PyGet(fields, "image_data")) ==>
      HandleOcr(Parsed(Obj(fields))) == ServerError
  {
  }

  /**
   * Coordinates are tested with `is None`: x = 0 and y = 0 are accepted
   * (a test of truthiness would reject them), while a null coordinate is not.
   */
  lemma ZeroCoordinatesAccepted(image: string)
    requires image != ""
    ensures var r := HandleOcr(Parsed(Obj(map["image_data" := Str(image), "x" := Num(0), "y" := Num(0)])));
      r.Reply? && r.status == 200 && "error" !in r.body.fields
    ensures HandleOcr(Parsed(Obj(map["image_data" := Str(image), "x" := Num(0), "y" := Null]))) ==
      Reply(400, Obj(map["error" := Str("Missing 'image_data', 'x', or 'y'")]))
  {
    var m := map["image_data" := Str(image), "x" := Num(0), "y" := Num(0)];
    assert "image_data" in m && m != map[];
    assert PyGet(m, "image_data") == Str(image) && PyGet(m, "x") == Num(0) && PyGet(m, "y") == Num(0);
    SuccessBody(Parsed(Obj(m)));
    var n := m["y" := Null];
    assert n == map["image_data" := Str(image), "x" := Num(0), "y" := Null];
    assert PyGet(n, "image_data") == Str(image) && PyGet(n, "y") == Null;
  }

  /** `image_data` is tested by truthiness: an empty string is rejected even with both coordinates. */
  lemma EmptyImageRejected(x: Value, y: Value)
    ensures HandleOcr(Parsed(Obj(map["image_data" := Str(""), "x" := x, "y" := y]))) ==
      Reply(400, Obj(map["error" := Str("Missing 'image_data', 'x', or 'y'")]))
  {
    var m := map["image_data" := Str(""), "x" := x, "y" := y];
    assert "image_data" in m && m != map[];
    assert PyGet(m, "image_data") == Str("");
  }

  /**
   * An accepted request gets 200 and a body with exactly `text`, `furigana`
   * and `translation`, no `error`, and the received coordinates in the translation.
   */
  lemma SuccessBody(request: JsonBody)
    requires Accepted(request)
    ensures var r := HandleOcr(request);
      var x := PyGet(request.data.fields, "x");
      var y := PyGet(request.data.fields, "y");
      r.Reply? && r.status == 200 && r.body.Obj? &&
      r.body.fields.Keys == {"text", "furigana", "translation"} &&
      "error" !in r.body.fields &&
      r.body.fields["translation"] ==
        Str("Success! Received click at (x=" + PyStr(x) + ", y=" + PyStr(y) + "). Backend is connected.")
  {
  }

  /** An integer coordinate appears in the translation in decimal. */
  lemma TranslationQuotesIntegers(image: string, x: int, y: int)
    requires image != ""
    ensures var r := HandleOcr(Parsed(Obj(map["image_data" := Str(image), "x" := Num(x), "y" := Num(y)])));
      r.Reply? && r.status == 200 &&
      r.body.fields["translation"] ==
        Str("Success! Received click at (x=" + Decimal(x) + ", y=" + Decimal(y) + "). Backend is connected.")
  {
    var m := map["image_data" := Str(image), "x" := Num(x), "y" := Num(y)];
    assert "image_data" in m && m != map[];
    assert PyGet(m, "image_data") == Str(image);
    assert PyGet(m, "x") == Num(x) && PyGet(m, "y") == Num(y);
    assert Accepted(Parsed(Obj(m)));
    SuccessBody(Parsed(Obj(m)));
  }

  /**
   * The handler fails with an uncaught exception exactly for a truthy
   * non-dict payload, or when a log line is handed an image_data it cannot
   * use: a number or true (neither sliced nor measured), or a non-empty dict
   * while a coordinate is missing (the error log slices it).
   */
  lemma ServerErrorCases(request: JsonBody)
    ensures HandleOcr(request) == ServerError <==>
      request.Parsed? && PyTruthy(request.data) &&
      (!request.data.Obj? ||
       (var image := PyGet(request.data.fields, "image_data");
        var coordinateMissing := PyGet(request.data.fields, "x") == Null || PyGet(request.data.fields, "y") == Null;
        PyTruthy(image) && (image.Num? || image.Bool? || (image.Obj? && coordinateMissing))))
  {
  }
}
