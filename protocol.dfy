/**
 * JSON values as they cross the two boundaries of the extension (the runtime
 * message between content script and service worker, and the HTTP exchange
 * with the backend), together with the JavaScript and Python conversions
 * the core applies to them.
 */
module Protocol {

  datatype Option<+T> = None | Some(value: T)

  /** A parsed JSON value. Numbers are integers (see README, "Left out"). */
  datatype Value =
    | Null
    | Bool(b: bool)
    | Num(n: int)
    | Str(s: string)
    | Arr(items: seq<Value>)
    | Obj(fields: map<string, Value>)

  /**
   * JavaScript property read `v.key` on a value that is neither null nor
   * undefined; `None` is `undefined`. Only the keys the core reads (action,
   * text, furigana, translation, error) are asked for, and none of them is a
   * built-in property of strings, numbers or arrays.
   */
  function Get(v: Value, key: string): (r: Option<Value>)
    ensures r.Some? <==> v.Obj? && key in v.fields
    ensures r.Some? ==> r.value == v.fields[key]
  {
    if v.Obj? && key in v.fields then Some(v.fields[key]) else None
  }

  /** Python `d.get(key)` on a dict: a missing key reads as None. */
  function PyGet(fields: map<string, Value>, key: string): (r: Value)
    ensures key !in fields ==> r == Null
    ensures key in fields ==> r == fields[key]
  {
    if key in fields then fields[key] else Null
  }

  /** JavaScript truthiness of a value that may be undefined (`None`). */
  predicate JsTruthy(v: Option<Value>) {
    match v
    case None => false
    case Some(Null) => false
    case Some(Bool(b)) => b
    case Some(Num(n)) => n != 0
    case Some(Str(s)) => s != ""
    case Some(Arr(_)) => true
    case Some(Obj(_)) => true
  }

  /** JavaScript `v == null`: true for null and for undefined. */
  predicate IsNullish(v: Option<Value>) {
    v == None || v == Some(Null)
  }

  /** Python truthiness: empty containers are false, unlike JavaScript. */
  predicate PyTruthy(v: Value) {
    match v
    case Null => false
    case Bool(b) => b
    case Num(n) => n != 0
    case Str(s) => s != ""
    case Arr(items) => items != []
    case Obj(fields) => fields != map[]
  }

  function DigitChar(d: int): char
    requires 0 <= d < 10
  {
    "0123456789"[d]
  }

  /** Decimal notation of an integer, as both `String(n)` and `str(n)` give it. */
  function Decimal(n: int): (r: string)
    decreases if n < 0 then 1 - n else n
  {
    if n < 0 then "-" + Decimal(-n)
    else if n < 10 then [DigitChar(n)]
    else Decimal(n / 10) + [DigitChar(n % 10)]
  }

  /** The strings joined with "," between them, as `Array.prototype.join` does. */
  function JoinWithCommas(parts: seq<string>): string {
    if |parts| == 0 then ""
    else if |parts| == 1 then parts[0]
    else parts[0] + "," + JoinWithCommas(parts[1..])
  }

  /**
   * JavaScript `String(v)` for a value that is neither null nor undefined
   * (callers decide those cases); an array element that is null becomes "".
   */
  function JsString(v: Value): string
    decreases v
  {
    match v
    case Null => "null"
    case Bool(b) => if b then "true" else "false"
    case Num(n) => Decimal(n)
    case Str(s) => s
    case Arr(items) =>
      JoinWithCommas(seq(|items|, i requires 0 <= i < |items| =>
        if items[i] == Null then "" else JsString(items[i])))
    case Obj(_) => "[object Object]"
  }

  /** Python `str(v)` for a parsed JSON scalar; containers are not rendered. */
  function PyStr(v: Value): string {
    match v
    case Null => "None"
    case Bool(b) => if b then "True" else "False"
    case Num(n) => Decimal(n)
    case Str(s) => s
    case Arr(_) => ""
    case Obj(_) => ""
  }

  /** The `{error: msg}` object every failure path of the core produces. */
  function ErrorObject(msg: string): (v: Value)
    ensures v.Obj? && v.fields.Keys == {"error"}
    ensures Get(v, "error") == Some(Str(msg))
  {
    Obj(map["error" := Str(msg)])
  }

  /** The one action the service worker answers. */
  const CaptureAction: string := "captureAndAnalyze"

  /**
   * The runtime message the content script sends to the service worker.
   * A field that is `None` is absent from the message (reads as undefined).
   */
  datatype Message = Message(action: Option<Value>, x: Option<real>, y: Option<real>, pixelRatio: Option<real>)
}
