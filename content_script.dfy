/**
 * The content script: the pointer tracker, the Shift/Escape/click handlers,
 * the single overlay dialog they create and remove, and the callback that
 * fills the dialog with the service worker's reply.
 *
 * `Page` and `Step` give the meaning of one event on the page; the class
 * `Overlay` holds the script's globals and the document and implements each
 * handler imperatively against that meaning.
 */
module ContentScript {
  import opened Protocol
  import opened HtmlEscape

  const DialogId: string := "alphaocr-dialog-unique-01"
  const ContentId: string := "alphaocr-content"
  /** The dialog's top-left corner is this far right of and below the pointer. */
  const Offset: int := 12
  const AnalysisFailed: string := "\U{274C} Analysis failed."
  const EmptyTextFallback: string := "..."

  // ---------------------------------------------------------------------
  // isTypingArea

  /** The focused element: its `tagName` (absent reads as undefined) and `isContentEditable`. */
  datatype Element = Element(tagName: Option<string>, isContentEditable: bool)

  /** `toLowerCase` on one character; only A-Z change. */
  function LowerChar(c: char): char {
    if 'A' <= c <= 'Z' then (c as int + 32) as char else c
  }

  predicate IsUpper(c: char) {
    'A' <= c <= 'Z'
  }

  /**
   * `toLowerCase` restricted to ASCII: no capital survives, every other
   * character stays, and each capital becomes the letter 32 code points on.
   */
  function ToLower(s: string): (r: string)
    ensures |r| == |s|
    ensures forall i :: 0 <= i < |r| ==> !IsUpper(r[i])
    ensures forall i :: 0 <= i < |s| && !IsUpper(s[i]) ==> r[i] == s[i]
    ensures forall i :: 0 <= i < |s| && IsUpper(s[i]) ==> r[i] as int == s[i] as int + 32
  {
    seq(|s|, i requires 0 <= i < |s| => LowerChar(s[i]))
  }

  /** Lower-casing twice is lower-casing once. */
  lemma ToLowerIdempotent(s: string)
    ensures ToLower(ToLower(s)) == ToLower(s)
  {
    var t := ToLower(s);
    assert forall i :: 0 <= i < |t| ==> ToLower(t)[i] == t[i];
  }

  /**
   * `isTypingArea(el)`: a null element is not one, a content-editable one
   * always is, and otherwise the tag must have the length of `input` or
   * `textarea`.
   */
  predicate IsTypingArea(el: Option<Element>)
    ensures IsTypingArea(el) ==> el.Some?
    ensures el.Some? && el.value.isContentEditable ==> IsTypingArea(el)
    ensures (el.Some? && !el.value.isContentEditable &&
             (el.value.tagName.None? || (|el.value.tagName.value| != 5 && |el.value.tagName.value| != 8)))
            ==> !IsTypingArea(el)
  {
    match el
    case None => false
    case Some(e) =>
      var tag := ToLower(if e.tagName.Some? then e.tagName.value else "");
      tag == "input" || tag == "textarea" || e.isContentEditable
  }

  /**
   * `a` spells the lower-case word `w`, each letter either as in `w` or as
   * its capital (the character 32 code points below it).
   */
  predicate SpellsIgnoringCase(a: string, w: string) {
    |a| == |w| &&
    forall i :: 0 <= i < |a| ==> a[i] == w[i] || (a[i] as int + 32 == w[i] as int && 'a' <= w[i] <= 'z')
  }

  predicate IsLowerWord(w: string) {
    forall i :: 0 <= i < |w| ==> 'a' <= w[i] <= 'z'
  }

  lemma ToLowerMatches(a: string, w: string)
    requires IsLowerWord(w)
    ensures ToLower(a) == w <==> SpellsIgnoringCase(a, w)
  {
    if SpellsIgnoringCase(a, w) {
      assert forall i :: 0 <= i < |a| ==> ToLower(a)[i] == w[i];
    }
    if ToLower(a) == w {
      assert forall i :: 0 <= i < |a| ==> LowerChar(a[i]) == w[i];
    }
  }

  /** The typing-area test in terms of the tag spelling, independent of ToLower. */
  lemma TypingAreaByTag(tag: Option<string>, editable: bool)
    ensures !IsTypingArea(None)
    ensures IsTypingArea(Some(Element(tag, editable))) <==>
      editable || (tag.Some? && (SpellsIgnoringCase(tag.value, "input") || SpellsIgnoringCase(tag.value, "textarea")))
  {
    var t := if tag.Some? then tag.value else "";
    ToLowerMatches(t, "input");
    ToLowerMatches(t, "textarea");
  }

  // ---------------------------------------------------------------------
  // The document and the script's globals

  /** What the dialog shows: the loading text, escaped result HTML, or plain text. */
  datatype Content =
    | Loading
    | Rich(furigana: string, text: string, translation: string)
    | Plain(text: string)

  /** A top-level node of the document: the page's own, or the overlay dialog. */
  datatype Node = HostNode(id: string) | DialogNode(left: int, top: int, content: Content)

  /** The globals `mouseX`, `mouseY`, `isVisible`, the document, and the messages sent so far. */
  datatype Page = Page(mouseX: int, mouseY: int, isVisible: bool, nodes: seq<Node>, sent: seq<Message>)

  function DialogCount(nodes: seq<Node>): nat {
    if nodes == [] then 0 else (if nodes[0].DialogNode? then 1 else 0) + DialogCount(nodes[1..])
  }

  /** The ids of the page's own nodes, in document order. */
  function HostIds(nodes: seq<Node>): seq<string> {
    if nodes == [] then [] else (if nodes[0].HostNode? then [nodes[0].id] else []) + HostIds(nodes[1..])
  }

  /** `document.getElementById(DIALOG_ID)`: the index of the first dialog node. */
  function FindDialog(nodes: seq<Node>): (r: Option<nat>)
    ensures r.Some? ==> r.value < |nodes| && nodes[r.value].DialogNode?
    ensures r.Some? ==> forall j :: 0 <= j < r.value ==> nodes[j].HostNode?
    ensures r.None? ==> forall j :: 0 <= j < |nodes| ==> nodes[j].HostNode?
  {
    if nodes == [] then None
    else if nodes[0].DialogNode? then Some(0)
    else match FindDialog(nodes[1..])
      case None => None
      case Some(k) => Some(k + 1)
  }

  /** `existing.remove()` of the node getElementById found, if any. */
  function RemoveDialog(nodes: seq<Node>): seq<Node> {
    match FindDialog(nodes)
    case None => nodes
    case Some(i) => nodes[..i] + nodes[i + 1..]
  }

  /** The dialog node the user sees, if any. */
  function CurrentDialog(p: Page): Option<Node> {
    match FindDialog(p.nodes)
    case None => None
    case Some(i) => Some(p.nodes[i])
  }

  /**
   * The invariant the handlers keep: at most one dialog node, `isVisible`
   * exactly when there is one, and no page node uses the script's ids.
   */
  predicate Consistent(p: Page) {
    DialogCount(p.nodes) <= 1 &&
    (p.isVisible <==> DialogCount(p.nodes) == 1) &&
    DialogId !in HostIds(p.nodes) && ContentId !in HostIds(p.nodes)
  }

  /** A page before the script has done anything: host nodes only, none with the script's ids. */
  predicate HostPage(nodes: seq<Node>) {
    (forall i :: 0 <= i < |nodes| ==> nodes[i].HostNode?) &&
    DialogId !in HostIds(nodes) && ContentId !in HostIds(nodes)
  }

  function Initial(document: seq<Node>): Page {
    Page(0, 0, false, document, [])
  }

  // ---------------------------------------------------------------------
  // The meaning of the helpers and handlers

  /** `hideDialog()`. */
  function Hide(p: Page): (q: Page)
    ensures !q.isVisible && q.sent == p.sent && q.mouseX == p.mouseX && q.mouseY == p.mouseY
    ensures FindDialog(p.nodes).None? ==> q.nodes == p.nodes
    ensures FindDialog(p.nodes).Some? ==> |q.nodes| == |p.nodes| - 1
  {
    p.(nodes := RemoveDialog(p.nodes), isVisible := false)
  }

  /** `showDialog(x, y)`: hide first, then append a loading dialog at (x+12, y+12). */
  function Show(p: Page, x: int, y: int): (q: Page)
    ensures q.isVisible && q.sent == p.sent && q.mouseX == p.mouseX && q.mouseY == p.mouseY
    ensures |q.nodes| > 0 && q.nodes[|q.nodes| - 1] == DialogNode(x + 12, y + 12, Loading)
  {
    var h := Hide(p);
    h.(nodes := h.nodes + [DialogNode(x + Offset, y + Offset, Loading)], isVisible := true)
  }

  /** The message sent on a trigger: action and position only. */
  function CaptureMessage(x: int, y: int): Message {
    Message(Some(Str(CaptureAction)), Some(x as real), Some(y as real), None)
  }

  /** Shift while idle: show the dialog at the pointer and send one capture message. */
  function Trigger(p: Page): Page {
    var s := Show(p, p.mouseX, p.mouseY);
    s.(sent := s.sent + [CaptureMessage(p.mouseX, p.mouseY)])
  }

  /** Replace the content of the dialog's container, when there is a dialog. */
  function SetContent(p: Page, c: Content): (q: Page)
    ensures q.isVisible == p.isVisible && q.sent == p.sent && q.mouseX == p.mouseX && q.mouseY == p.mouseY
    ensures |q.nodes| == |p.nodes|
    ensures forall j :: 0 <= j < |p.nodes| && p.nodes[j].HostNode? ==> q.nodes[j] == p.nodes[j]
    ensures FindDialog(p.nodes).None? ==> q == p
    ensures FindDialog(p.nodes).Some? ==>
      var i := FindDialog(p.nodes).value;
      q.nodes[i].DialogNode? && q.nodes[i].left == p.nodes[i].left && q.nodes[i].top == p.nodes[i].top &&
      q.nodes[i].content == c
  {
    match FindDialog(p.nodes)
    case None => p
    case Some(i) => p.(nodes := p.nodes[i := p.nodes[i].(content := c)])
  }

  /** `updateDialog(text)`: plain text, `'...'` when the text is falsy. */
  function ShowText(p: Page, text: Option<Value>): (q: Page)
    ensures q.isVisible == p.isVisible && q.sent == p.sent && |q.nodes| == |p.nodes|
    ensures FindDialog(p.nodes).Some? ==>
      var d := q.nodes[FindDialog(p.nodes).value];
      d.DialogNode? && d.content.Plain? &&
      (!JsTruthy(text) ==> d.content == Plain("...")) &&
      (JsTruthy(text) && text.value.Str? ==> d.content == Plain(text.value.s))
  {
    SetContent(p, Plain(if JsTruthy(text) then JsString(text.value) else EmptyTextFallback))
  }

  /** `response.error || "❌ Analysis failed."` on a response that is neither null nor undefined. */
  function ErrorText(response: Value): Option<Value> {
    var e := Get(response, "error");
    if JsTruthy(e) then e else Some(Str(AnalysisFailed))
  }

  /** The callback reads `response.error` of null or undefined: a TypeError, nothing changes. */
  predicate ResponseThrows(p: Page, response: Option<Value>) {
    p.isVisible && IsNullish(response)
  }

  /** The `sendMessage` callback. */
  function Respond(p: Page, response: Option<Value>): (q: Page)
    ensures !p.isVisible || IsNullish(response) ==> q == p
    ensures q.isVisible == p.isVisible && q.sent == p.sent && q.mouseX == p.mouseX && q.mouseY == p.mouseY
    ensures |q.nodes| == |p.nodes|
  {
    if !p.isVisible then p
    else if JsTruthy(response) && JsTruthy(Get(response.value, "text")) then
      var r := response.value;
      SetContent(p, Rich(EscapeHtml(Get(r, "furigana")), EscapeHtml(Get(r, "text")), EscapeHtml(Get(r, "translation"))))
    else if IsNullish(response) then p
    else ShowText(p, ErrorText(response.value))
  }

  /** The keydown listener. */
  function KeyDownStep(p: Page, key: string, active: Option<Element>): (q: Page)
    ensures key != "Shift" && key != "Escape" ==> q == p
    ensures key == "Shift" && IsTypingArea(active) ==> q == p
    ensures q.mouseX == p.mouseX && q.mouseY == p.mouseY
    ensures |q.sent| == |p.sent| + 1 <==> key == "Shift" && !IsTypingArea(active) && !p.isVisible
    ensures |q.sent| != |p.sent| + 1 ==> q.sent == p.sent
    ensures p.isVisible && (key == "Escape" || (key == "Shift" && !IsTypingArea(active))) ==> !q.isVisible
  {
    if key == "Shift" then
      if IsTypingArea(active) then p
      else if p.isVisible then Hide(p)
      else Trigger(p)
    else if key == "Escape" && p.isVisible then Hide(p)
    else p
  }

  /** The mousedown listener; `onDialog` says whether the target lies inside the dialog. */
  function MouseDownStep(p: Page, onDialog: bool): (q: Page)
    ensures onDialog || !p.isVisible ==> q == p
    ensures q.sent == p.sent && (q == p || !q.isVisible)
    ensures p.isVisible && !onDialog && FindDialog(p.nodes).Some? ==> !q.isVisible
  {
    if !p.isVisible then p
    else if FindDialog(p.nodes).Some? && !onDialog then Hide(p)
    else p
  }

  datatype Event =
    | MouseMove(x: int, y: int)
    | KeyDown(key: string, active: Option<Element>)
    | MouseDown(onDialog: bool)
    | Reply(response: Option<Value>)

  function Step(p: Page, e: Event): Page {
    match e
    case MouseMove(x, y) => p.(mouseX := x, mouseY := y)
    case KeyDown(key, active) => KeyDownStep(p, key, active)
    case MouseDown(onDialog) => MouseDownStep(p, onDialog)
    case Reply(response) => Respond(p, response)
  }

  /** The page after a sequence of events, one at a time. */
  function Run(p: Page, events: seq<Event>): Page
    decreases |events|
  {
    if events == [] then p else Run(Step(p, events[0]), events[1..])
  }

  lemma RunCons(p: Page, e: Event, rest: seq<Event>)
    ensures Run(p, [e] + rest) == Run(Step(p, e), rest)
  {
    assert ([e] + rest)[1..] == rest;
  }

  lemma RunUnfolds(p: Page, e1: Event, e2: Event, e3: Event)
    ensures Run(p, [e1]) == Step(p, e1)
    ensures Run(p, [e1, e2]) == Step(Step(p, e1), e2)
    ensures Run(p, [e1, e2, e3]) == Step(Step(Step(p, e1), e2), e3)
  {
    var p1 := Step(p, e1);
    var p2 := Step(p1, e2);
    RunCons(p, e1, []);
    RunCons(p1, e2, []);
    RunCons(p2, e3, []);
    assert [e1] + [e2] == [e1, e2];
    RunCons(p, e1, [e2]);
    assert [e2] + [e3] == [e2, e3] && [e1] + [e2, e3] == [e1, e2, e3];
    RunCons(p, e1, [e2, e3]);
    RunCons(p1, e2, [e3]);
  }

  /** Events that close a visible dialog. */
  predicate Dismisses(e: Event) {
    (e.KeyDown? && e.key == "Escape") ||
    (e.KeyDown? && e.key == "Shift" && !IsTypingArea(e.active)) ||
    e == MouseDown(false)
  }

  // ---------------------------------------------------------------------
  // Lemmas about the document

  lemma {:induction false} CountsAppend(a: seq<Node>, b: seq<Node>)
    ensures DialogCount(a + b) == DialogCount(a) + DialogCount(b)
    ensures HostIds(a + b) == HostIds(a) + HostIds(b)
  {
    if a == [] {
      assert a + b == b;
    } else {
      assert (a + b)[1..] == a[1..] + b;
      CountsAppend(a[1..], b);
    }
  }

  lemma {:induction false} NoDialogs(nodes: seq<Node>)
    requires forall j :: 0 <= j < |nodes| ==> nodes[j].HostNode?
    ensures DialogCount(nodes) == 0
  {
    if nodes != [] {
      NoDialogs(nodes[1..]);
    }
  }

  /** The dialog is found exactly when the document holds one. */
  lemma FindDialogIffAny(nodes: seq<Node>)
    ensures FindDialog(nodes).Some? <==> DialogCount(nodes) > 0
  {
    var r := FindDialog(nodes);
    if r.None? {
      NoDialogs(nodes);
    } else {
      var i := r.value;
      assert nodes == nodes[..i] + [nodes[i]] + nodes[i + 1..];
      CountsAppend(nodes[..i] + [nodes[i]], nodes[i + 1..]);
      CountsAppend(nodes[..i], [nodes[i]]);
      assert DialogCount([nodes[i]]) == 1;
    }
  }

  /** The dialog found is the first dialog node in document order. */
  lemma {:induction false} FindDialogIsFirst(nodes: seq<Node>, i: nat)
    requires i < |nodes| && nodes[i].DialogNode?
    requires forall j :: 0 <= j < i ==> nodes[j].HostNode?
    ensures FindDialog(nodes) == Some(i)
  {
    if i > 0 {
      FindDialogIsFirst(nodes[1..], i - 1);
    }
  }

  /** Removing the dialog removes exactly one dialog node and keeps every page node. */
  lemma RemoveDialogCounts(nodes: seq<Node>)
    ensures DialogCount(RemoveDialog(nodes)) == if DialogCount(nodes) == 0 then 0 else DialogCount(nodes) - 1
    ensures HostIds(RemoveDialog(nodes)) == HostIds(nodes)
  {
    match FindDialog(nodes)
    case None =>
      NoDialogs(nodes);
    case Some(i) =>
      var before, after := nodes[..i], nodes[i + 1..];
      assert nodes == before + [nodes[i]] + after;
      CountsAppend(before + [nodes[i]], after);
      CountsAppend(before, [nodes[i]]);
      CountsAppend(before, after);
      NoDialogs(before);
      assert DialogCount([nodes[i]]) == 1 && HostIds([nodes[i]]) == [];
  }

  /** Changing the dialog's content keeps every count. */
  lemma SetContentCounts(p: Page, c: Content)
    ensures SetContent(p, c).isVisible == p.isVisible
    ensures DialogCount(SetContent(p, c).nodes) == DialogCount(p.nodes)
    ensures HostIds(SetContent(p, c).nodes) == HostIds(p.nodes)
  {
    match FindDialog(p.nodes)
    case None =>
    case Some(i) =>
      var n := p.nodes;
      var d := n[i].(content := c);
      assert n == n[..i] + [n[i]] + n[i + 1..];
      assert n[i := d] == n[..i] + [d] + n[i + 1..];
      CountsAppend(n[..i] + [n[i]], n[i + 1..]);
      CountsAppend(n[..i], [n[i]]);
      CountsAppend(n[..i] + [d], n[i + 1..]);
      CountsAppend(n[..i], [d]);
      assert DialogCount([d]) == 1 == DialogCount([n[i]]);
      assert HostIds([d]) == [] == HostIds([n[i]]);
  }

  /** `hideDialog` leaves no dialog, `isVisible` false, and the page's nodes in place. */
  lemma HideClears(p: Page)
    requires Consistent(p)
    ensures !Hide(p).isVisible && DialogCount(Hide(p).nodes) == 0 && CurrentDialog(Hide(p)) == None
    ensures HostIds(Hide(p).nodes) == HostIds(p.nodes)
    ensures Consistent(Hide(p))
    ensures Hide(p).mouseX == p.mouseX && Hide(p).mouseY == p.mouseY && Hide(p).sent == p.sent
  {
    RemoveDialogCounts(p.nodes);
    FindDialogIffAny(Hide(p).nodes);
  }

  /** `hideDialog` is idempotent. */
  lemma HideIdempotent(p: Page)
    requires Consistent(p)
    ensures Hide(Hide(p)) == Hide(p)
  {
    HideClears(p);
    FindDialogIffAny(Hide(p).nodes);
  }

  /** `showDialog` leaves exactly one dialog, loading, at (x+12, y+12), unclamped. */
  lemma ShowPlacesOneDialog(p: Page, x: int, y: int)
    requires Consistent(p)
    ensures Show(p, x, y).isVisible && DialogCount(Show(p, x, y).nodes) == 1
    ensures CurrentDialog(Show(p, x, y)) == Some(DialogNode(x + 12, y + 12, Loading))
    ensures HostIds(Show(p, x, y).nodes) == HostIds(p.nodes)
    ensures Consistent(Show(p, x, y))
    ensures Show(p, x, y).sent == p.sent
  {
    HideClears(p);
    var h := Hide(p).nodes;
    var d := DialogNode(x + Offset, y + Offset, Loading);
    CountsAppend(h, [d]);
    assert DialogCount([d]) == 1 && HostIds([d]) == [];
    FindDialogIffAny(h);
    FindDialogIsFirst(h + [d], |h|);
  }

  /** A reply keeps the page consistent. */
  lemma RespondKeepsConsistent(p: Page, response: Option<Value>)
    requires Consistent(p)
    ensures Consistent(Respond(p, response))
    ensures HostIds(Respond(p, response).nodes) == HostIds(p.nodes)
  {
    if p.isVisible && !IsNullish(response) {
      var r := response.value;
      if JsTruthy(response) && JsTruthy(Get(r, "text")) {
        SetContentCounts(p, Rich(EscapeHtml(Get(r, "furigana")), EscapeHtml(Get(r, "text")), EscapeHtml(Get(r, "translation"))));
      } else {
        var t := ErrorText(r);
        SetContentCounts(p, Plain(if JsTruthy(t) then JsString(t.value) else EmptyTextFallback));
      }
    }
  }

  /** A key press keeps the page consistent. */
  lemma KeyDownKeepsConsistent(p: Page, key: string, active: Option<Element>)
    requires Consistent(p)
    ensures Consistent(KeyDownStep(p, key, active))
    ensures HostIds(KeyDownStep(p, key, active).nodes) == HostIds(p.nodes)
  {
    if key == "Shift" && !IsTypingArea(active) && !p.isVisible {
      ShowPlacesOneDialog(p, p.mouseX, p.mouseY);
      assert KeyDownStep(p, key, active).nodes == Show(p, p.mouseX, p.mouseY).nodes;
    } else {
      HideClears(p);
    }
  }

  /** Every event keeps the page consistent and leaves the page's own nodes alone. */
  lemma StepKeepsConsistent(p: Page, e: Event)
    requires Consistent(p)
    ensures Consistent(Step(p, e))
    ensures HostIds(Step(p, e).nodes) == HostIds(p.nodes)
  {
    match e
    case MouseMove(_, _) =>
    case KeyDown(key, active) =>
      KeyDownKeepsConsistent(p, key, active);
    case MouseDown(_) =>
      HideClears(p);
    case Reply(response) =>
      RespondKeepsConsistent(p, response);
  }

  /** Any sequence of events keeps the page consistent: never two dialogs. */
  lemma {:induction false} RunKeepsConsistent(p: Page, events: seq<Event>)
    requires Consistent(p)
    ensures Consistent(Run(p, events))
    ensures DialogCount(Run(p, events).nodes) <= 1
    ensures HostIds(Run(p, events).nodes) == HostIds(p.nodes)
    decreases |events|
  {
    if events != [] {
      StepKeepsConsistent(p, events[0]);
      RunKeepsConsistent(Step(p, events[0]), events[1..]);
    }
  }

  lemma InitialConsistent(document: seq<Node>)
    requires HostPage(document)
    ensures Consistent(Initial(document))
  {
    NoDialogs(document);
  }

  // ---------------------------------------------------------------------
  // Lemmas about the handlers

  /**
   * Shift: nothing while typing; while visible, hide and send nothing; while
   * idle, show a loading dialog at the pointer and send exactly one message
   * carrying the pointer position.
   */
  lemma ShiftKey(p: Page, active: Option<Element>)
    requires Consistent(p)
    ensures IsTypingArea(active) ==> Step(p, KeyDown("Shift", active)) == p
    ensures !IsTypingArea(active) && p.isVisible ==>
      var q := Step(p, KeyDown("Shift", active));
      !q.isVisible && CurrentDialog(q) == None && q.sent == p.sent
    ensures !IsTypingArea(active) && !p.isVisible ==>
      var q := Step(p, KeyDown("Shift", active));
      q.isVisible &&
      CurrentDialog(q) == Some(DialogNode(p.mouseX + 12, p.mouseY + 12, Loading)) &&
      q.sent == p.sent + [CaptureMessage(p.mouseX, p.mouseY)] &&
      q.mouseX == p.mouseX && q.mouseY == p.mouseY
  {
    HideClears(p);
    ShowPlacesOneDialog(p, p.mouseX, p.mouseY);
  }

  /** Shift, Shift from idle: the dialog is gone again and exactly one request went out. */
  lemma ToggleLaw(p: Page, a: Option<Element>, b: Option<Element>)
    requires Consistent(p) && !p.isVisible
    requires !IsTypingArea(a) && !IsTypingArea(b)
    ensures var q := Run(p, [KeyDown("Shift", a), KeyDown("Shift", b)]);
      !q.isVisible && DialogCount(q.nodes) == 0 &&
      q.sent == p.sent + [CaptureMessage(p.mouseX, p.mouseY)] &&
      HostIds(q.nodes) == HostIds(p.nodes)
  {
    var p1 := Step(p, KeyDown("Shift", a));
    ShiftKey(p, a);
    StepKeepsConsistent(p, KeyDown("Shift", a));
    ShiftKey(p1, b);
    HideClears(p1);
    RunUnfolds(p, KeyDown("Shift", a), KeyDown("Shift", b), KeyDown("Shift", b));
  }

  /**
   * Dismissal: Escape (even while typing) or Shift hides a visible dialog, a
   * click outside hides it, a click inside does not, and nothing is sent.
   */
  lemma DismissalHides(p: Page, e: Event)
    requires Consistent(p) && p.isVisible
    ensures Dismisses(e) ==> !Step(p, e).isVisible && CurrentDialog(Step(p, e)) == None && Step(p, e).sent == p.sent
    ensures Step(p, MouseDown(true)) == p
  {
    HideClears(p);
    FindDialogIffAny(p.nodes);
  }

  /** A click or an Escape while idle changes nothing. */
  lemma IdleIgnoresDismissal(p: Page, onDialog: bool, active: Option<Element>)
    requires Consistent(p) && !p.isVisible
    ensures Step(p, MouseDown(onDialog)) == p
    ensures Step(p, KeyDown("Escape", active)) == p
  {
  }

  /** A reply that arrives after the dialog was dismissed does not bring it back. */
  lemma LateReplySuppressed(p: Page, a: Option<Element>, dismiss: Event, response: Option<Value>)
    requires Consistent(p) && !p.isVisible && !IsTypingArea(a)
    requires Dismisses(dismiss)
    ensures var q := Run(p, [KeyDown("Shift", a), dismiss, Reply(response)]);
      q == Run(p, [KeyDown("Shift", a), dismiss]) &&
      !q.isVisible && CurrentDialog(q) == None &&
      q.sent == p.sent + [CaptureMessage(p.mouseX, p.mouseY)]
  {
    var p1 := Step(p, KeyDown("Shift", a));
    ShiftKey(p, a);
    StepKeepsConsistent(p, KeyDown("Shift", a));
    var p2 := Step(p1, dismiss);
    DismissalHides(p1, dismiss);
    assert Step(p2, Reply(response)) == p2;
    RunUnfolds(p, KeyDown("Shift", a), dismiss, Reply(response));
  }

  /**
   * The guard looks only at `isVisible`, so the reply to a request made
   * before a dismissal fills a dialog opened by a later trigger.
   */
  lemma StaleReplyFillsNewerDialog(p: Page, a: Option<Element>, b: Option<Element>, response: Value)
    requires Consistent(p) && p.isVisible && !IsTypingArea(a) && !IsTypingArea(b)
    requires JsTruthy(Some(response)) && JsTruthy(Get(response, "text"))
    ensures var q := Run(p, [KeyDown("Shift", a), KeyDown("Shift", b), Reply(Some(response))]);
      q.isVisible && CurrentDialog(q).Some? && CurrentDialog(q).value.content.Rich?
  {
    var p1 := Step(p, KeyDown("Shift", a));
    ShiftKey(p, a);
    StepKeepsConsistent(p, KeyDown("Shift", a));
    var p2 := Step(p1, KeyDown("Shift", b));
    ShiftKey(p1, b);
    StepKeepsConsistent(p1, KeyDown("Shift", b));
    ReplyFillsDialog(p2, Some(response));
    RunUnfolds(p, KeyDown("Shift", a), KeyDown("Shift", b), Reply(Some(response)));
  }

  /**
   * A reply on a visible dialog: a result with truthy `text` becomes escaped
   * rich content; null or undefined throws and changes nothing; anything
   * else shows `response.error`, or the fixed failure text.
   */
  lemma ReplyFillsDialog(p: Page, response: Option<Value>)
    requires Consistent(p) && p.isVisible
    ensures var q := Step(p, Reply(response));
      q.isVisible && DialogCount(q.nodes) == 1 && q.sent == p.sent &&
      (JsTruthy(response) && JsTruthy(Get(response.value, "text")) ==>
        CurrentDialog(q).Some? &&
        CurrentDialog(q).value.content ==
          Rich(EscapeHtml(Get(response.value, "furigana")), EscapeHtml(Get(response.value, "text")),
               EscapeHtml(Get(response.value, "translation")))) &&
      (ResponseThrows(p, response) ==> q == p) &&
      (!IsNullish(response) && !JsTruthy(Get(response.value, "text")) ==>
        CurrentDialog(q).Some? &&
        CurrentDialog(q).value.content ==
          Plain(if JsTruthy(Get(response.value, "error")) then JsString(Get(response.value, "error").value)
                else AnalysisFailed))
  {
    StepKeepsConsistent(p, Reply(response));
    FindDialogIffAny(p.nodes);
    var q := Step(p, Reply(response));
    FindDialogIffAny(q.nodes);
    var i := FindDialog(p.nodes).value;
    if !IsNullish(response) {
      FindDialogIsFirst(q.nodes, i);
    }
  }

  /**
   * `shown` is safe markup for the field `v`: it holds no `<` or `>`, and
   * decoding it gives `String(v)`, or nothing for null and undefined.
   */
  predicate EscapedFrom(shown: string, v: Option<Value>) {
    '<' !in shown && '>' !in shown &&
    Unescape(shown) == (if IsNullish(v) then "" else JsString(v.value))
  }

  lemma EscapeHtmlIsSafe(v: Option<Value>)
    ensures EscapedFrom(EscapeHtml(v), v)
  {
    if !IsNullish(v) {
      UnescapeEscapeText(JsString(v.value));
    }
  }

  /**
   * All three fields from the backend reach the dialog escaped: no `<`, no
   * `>`, and nothing lost.
   */
  lemma RichContentIsEscaped(p: Page, response: Value)
    requires Consistent(p) && p.isVisible
    requires JsTruthy(Some(response)) && JsTruthy(Get(response, "text"))
    ensures var c := CurrentDialog(Step(p, Reply(Some(response))));
      c.Some? && c.value.content.Rich? &&
      EscapedFrom(c.value.content.furigana, Get(response, "furigana")) &&
      EscapedFrom(c.value.content.text, Get(response, "text")) &&
      EscapedFrom(c.value.content.translation, Get(response, "translation"))
  {
    ReplyFillsDialog(p, Some(response));
    EscapeHtmlIsSafe(Get(response, "furigana"));
    EscapeHtmlIsSafe(Get(response, "text"));
    EscapeHtmlIsSafe(Get(response, "translation"));
  }

  // ---------------------------------------------------------------------
  // The script itself

  /** The script's globals and the document it injects into. */
  class Overlay {
    var mouseX: int
    var mouseY: int
    var isVisible: bool
    var nodes: seq<Node>
    var sent: seq<Message>

    function Snapshot(): Page
      reads this
    {
      Page(mouseX, mouseY, isVisible, nodes, sent)
    }

    ghost predicate Valid()
      reads this
    {
      Consistent(Snapshot())
    }

    /** The script starts on a page without a dialog, idle, pointer at (0, 0). */
    constructor (document: seq<Node>)
      requires HostPage(document)
      ensures Valid() && Snapshot() == Initial(document)
    {
      mouseX, mouseY := 0, 0;
      isVisible := false;
      nodes := document;
      sent := [];
      new;
      InitialConsistent(document);
    }

    method HideDialog()
      modifies this
      ensures Snapshot() == Hide(old(Snapshot()))
    {
      var existing := FindDialog(nodes);
      if existing.Some? {
        var i := existing.value;
        nodes := nodes[..i] + nodes[i + 1..];
      }
      isVisible := false;
    }

    method ShowDialog(x: int, y: int)
      modifies this
      ensures Snapshot() == Show(old(Snapshot()), x, y)
    {
      HideDialog();
      nodes := nodes + [DialogNode(x + Offset, y + Offset, Loading)];
      isVisible := true;
    }

    method SetContainer(c: Content)
      modifies this
      ensures Snapshot() == SetContent(old(Snapshot()), c)
    {
      var container := FindDialog(nodes);
      if container.Some? {
        var i := container.value;
        nodes := nodes[i := nodes[i].(content := c)];
      }
    }

    method UpdateDialog(text: Option<Value>)
      modifies this
      ensures Snapshot() == ShowText(old(Snapshot()), text)
    {
      SetContainer(Plain(if JsTruthy(text) then JsString(text.value) else EmptyTextFallback));
    }

    method UpdateDialogHtml(furigana: string, text: string, translation: string)
      modifies this
      ensures Snapshot() == SetContent(old(Snapshot()), Rich(furigana, text, translation))
    {
      SetContainer(Rich(furigana, text, translation));
    }

    method OnMouseMove(x: int, y: int)
      requires Valid()
      modifies this
      ensures Valid() && Snapshot() == Step(old(Snapshot()), MouseMove(x, y))
    {
      mouseX := x;
      mouseY := y;
    }

    method OnKeyDown(key: string, active: Option<Element>)
      requires Valid()
      modifies this
      ensures Valid() && Snapshot() == Step(old(Snapshot()), KeyDown(key, active))
    {
      StepKeepsConsistent(Snapshot(), KeyDown(key, active));
      if key == "Shift" {
        if IsTypingArea(active) {
          return;
        }
        if isVisible {
          HideDialog();
          return;
        }
        var x, y := mouseX, mouseY;
        ShowDialog(x, y);
        sent := sent + [CaptureMessage(x, y)];
      }
      if key == "Escape" && isVisible {
        HideDialog();
      }
    }

    method OnMouseDown(onDialog: bool)
      requires Valid()
      modifies this
      ensures Valid() && Snapshot() == Step(old(Snapshot()), MouseDown(onDialog))
    {
      StepKeepsConsistent(Snapshot(), MouseDown(onDialog));
      if !isVisible {
        return;
      }
      var dialog := FindDialog(nodes);
      if dialog.Some? && !onDialog {
        HideDialog();
      }
    }

    /** The `sendMessage` callback; `threw` reports the TypeError on a null or undefined reply. */
    method OnResponse(response: Option<Value>) returns (threw: bool)
      requires Valid()
      modifies this
      ensures Valid() && Snapshot() == Step(old(Snapshot()), Reply(response))
      ensures threw <==> ResponseThrows(old(Snapshot()), response)
    {
      StepKeepsConsistent(Snapshot(), Reply(response));
      threw := false;
      if !isVisible {
        return;
      }
      if JsTruthy(response) && JsTruthy(Get(response.value, "text")) {
        var r := response.value;
        UpdateDialogHtml(EscapeHtml(Get(r, "furigana")), EscapeHtml(Get(r, "text")), EscapeHtml(Get(r, "translation")));
      } else if IsNullish(response) {
        threw := true;
      } else {
        UpdateDialog(ErrorText(response.value));
      }
    }
  }
}
