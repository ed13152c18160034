/**
  The chat turn controller: the persisted store (history and API key),
  the thread of elements shown on the page, and the handlers that load
  the history, send a message, process the assistant's response, retry
  after an error, save the key and apply the theme.

  The thread is a sequence of nodes in document order. The request to the
  completion service is not performed here: its outcome is a parameter.
 */
module Chat {
  import opened Wrappers
  import opened Strings
  import opened Formatter

  /** One stored history entry. */
  datatype Message = Message(role: string, content: string)

  /** An element of the thread. */
  datatype Node =
    | Welcome                              // the empty-conversation placeholder
    | Bubble(role: string, content: string) // a rendered message
    | Loading                              // the "Thinking..." indicator
    | Error(message: string)               // an error bubble with its Retry control
    | InputArea                            // the input box, kept at the bottom

  /** What the completion request produced. */
  datatype Outcome =
    | Reply(text: string)       // a 2xx response whose first choice carries `text`
    | HttpError(status: nat)    // a response the code rejects; it does so only for a status outside 200-299
    | Failure(message: string)  // a network failure or an unreadable response body

  /**
    The fixed assistant-styled notice for a missing key. It is written as
    a sequence built from its text, so that the verifier does not evaluate
    the whole formatter on it wherever it appears; `AdvisoryIsText` shows
    the two are the same string. The text is written in pieces only to
    keep the proofs about its characters small.
   */
  const Advisory: string := Rebuilt(AdvisoryText)
  const AdvisoryText: string := Advisory0 + Advisory1 + Advisory2 + Advisory3 + Advisory4
  const Advisory0: string := "I cannot reply because "
  const Advisory1: string := "the API Key is missing. "
  const Advisory2: string := "Please configure it in "
  const Advisory3: string := "the full app or "
  const Advisory4: string := "contact support."
  const DefaultTheme: string := "theme-cmd-white"

  /** The message a JavaScript engine gives when restoring a block reads `lang` of `undefined`. */
  const UndefinedBlockMessage: string := "Cannot read properties of undefined (reading 'lang')"

  /**
    Whether appending a message with this content completes (rather than
    throwing), that is whether `Format(content)` succeeds (`RendersIsFormat`).
    It is stated through the countdown `RendersWithin`, so that proofs about
    the thread take it as a fact about the message and do not unfold the
    formatter.
   */
  predicate Renders(content: string) {
    RendersWithin(content, |content| + 1)
  }

  predicate RendersWithin(content: string, n: nat)
    decreases n
  {
    if n == 0 then Format(content).Ok? else RendersWithin(content, n - 1)
  }

  lemma {:induction false} RendersWithinZero(content: string, n: nat)
    ensures RendersWithin(content, n) == RendersWithin(content, 0)
    decreases n
  {
    if n > 0 {
      RendersWithinStep(content, n);
      RendersWithinZero(content, n - 1);
    }
  }

  lemma RendersWithinStep(content: string, n: nat)
    requires n > 0
    ensures RendersWithin(content, n) == RendersWithin(content, n - 1)
  {
  }

  lemma RendersAtZero(content: string)
    ensures RendersWithin(content, 0) == Format(content).Ok?
  {
  }

  lemma RendersIsFormat(content: string)
    ensures Renders(content) == Format(content).Ok?
  {
    RendersWithinZero(content, |content| + 1);
    RendersAtZero(content);
  }

  /** `!key`: no key stored, or the empty string. */
  predicate KeyMissing(key: Option<string>) {
    key.None? || key.value == []
  }

  /** The text of the error thrown for a failed request. */
  function FailureMessage(o: Outcome): (m: string)
    requires !o.Reply?
    ensures o.Failure? ==> m == o.message
    ensures o.HttpError? ==> |m| > 11 && m[..11] == "API Error: "
    ensures o.HttpError? ==> AllDigits(m[11..]) && Canonical(m[11..]) && ParseDigits(m[11..]) == o.status
  {
    match o
    case HttpError(status) =>
      var m := "API Error: " + NatToString(status);
      assert m[11..] == NatToString(status);
      ParseNatToString(status);
      m
    case Failure(message) => message
  }

  // ---------------------------------------------------------------------
  // The thread
  // ---------------------------------------------------------------------

  /** Where `insertBefore(node, inputArea)` puts a node: at the first input area, or at the end. */
  function InsertPos(t: seq<Node>): (p: nat)
    ensures p <= |t|
    ensures forall i :: 0 <= i < p ==> t[i] != InputArea
    ensures p < |t| ==> t[p] == InputArea
  {
    if t == [] then 0
    else if t[0] == InputArea then 0
    else 1 + InsertPos(t[1..])
  }

  function InsertNode(t: seq<Node>, n: Node): seq<Node> {
    t[..InsertPos(t)] + [n] + t[InsertPos(t)..]
  }

  function RemoveAt(t: seq<Node>, i: nat): seq<Node>
    requires i < |t|
  {
    t[..i] + t[i + 1..]
  }

  /** The kinds of node found by a selector query. */
  datatype Kind = WelcomeKind | ErrorKind

  predicate OfKind(n: Node, k: Kind) {
    match k
    case WelcomeKind => n.Welcome?
    case ErrorKind => n.Error?
  }

  /** `querySelector`: the first node of a kind in document order. */
  function FirstOf(t: seq<Node>, k: Kind): (r: Option<nat>)
    ensures r.Some? ==> r.value < |t| && OfKind(t[r.value], k)
    ensures r.Some? ==> forall i :: 0 <= i < r.value ==> !OfKind(t[i], k)
    ensures r.None? ==> forall i :: 0 <= i < |t| ==> !OfKind(t[i], k)
  {
    if t == [] then None
    else if OfKind(t[0], k) then Some(0)
    else match FirstOf(t[1..], k)
      case Some(i) => Some(i + 1)
      case None => None
  }

  /** Remove the first node of a kind, if there is one. */
  function RemoveFirst(t: seq<Node>, k: Kind): seq<Node> {
    match FirstOf(t, k)
    case Some(i) => RemoveAt(t, i)
    case None => t
  }

  /**
    The shape every handler keeps: the input area, if present, is the
    last node, the welcome, if present, the first, and no loading
    indicator is left behind.
   */
  predicate WellFormed(t: seq<Node>) {
    && (forall i :: 0 <= i < |t| ==> t[i] != Loading)
    && (forall i :: 0 <= i < |t| - 1 ==> t[i] != InputArea)
    && (forall i :: 0 < i < |t| ==> t[i] != Welcome)
  }

  /** The conversation as shown: message and error bubbles in document order. */
  function Log(t: seq<Node>): seq<Node> {
    if t == [] then []
    else (if t[0].Bubble? || t[0].Error? then [t[0]] else []) + Log(t[1..])
  }

  /** The messages of the error bubbles, in document order. */
  function ErrorsOf(t: seq<Node>): seq<string> {
    if t == [] then []
    else (if t[0].Error? then [t[0].message] else []) + ErrorsOf(t[1..])
  }

  /** The bubbles of stored messages. */
  function Bubbles(h: seq<Message>): (r: seq<Node>)
    ensures |r| == |h|
    ensures forall i :: 0 <= i < |h| ==> r[i] == Bubble(h[i].role, h[i].content)
  {
    if h == [] then [] else [Bubble(h[0].role, h[0].content)] + Bubbles(h[1..])
  }

  lemma {:induction false} LogConcat(a: seq<Node>, b: seq<Node>)
    ensures Log(a + b) == Log(a) + Log(b)
  {
    if a == [] {
      assert a + b == b;
    } else {
      var ab := a + b;
      assert ab[0] == a[0] && ab[1..] == a[1..] + b;
      LogConcat(a[1..], b);
      ConcatStep(if a[0].Bubble? || a[0].Error? then [a[0]] else [], Log(a[1..]), Log(b));
    }
  }

  lemma {:induction false} ErrorsConcat(a: seq<Node>, b: seq<Node>)
    ensures ErrorsOf(a + b) == ErrorsOf(a) + ErrorsOf(b)
  {
    if a == [] {
      assert a + b == b;
    } else {
      var ab := a + b;
      assert ab[0] == a[0] && ab[1..] == a[1..] + b;
      ErrorsConcat(a[1..], b);
      ConcatStep(if a[0].Error? then [a[0].message] else [], ErrorsOf(a[1..]), ErrorsOf(b));
    }
  }

  lemma ConcatStep<T>(h: seq<T>, x: seq<T>, y: seq<T>)
    ensures h + (x + y) == (h + x) + y
  {
  }

  lemma LogSingle(n: Node)
    ensures Log([n]) == (if n.Bubble? || n.Error? then [n] else [])
    ensures ErrorsOf([n]) == (if n.Error? then [n.message] else [])
  {
    assert [n][1..] == [];
  }

  /** Removing the node at the place it was inserted gives back the thread. */
  lemma RemoveInserted(t: seq<Node>, n: Node)
    ensures InsertPos(t) < |InsertNode(t, n)|
    ensures RemoveAt(InsertNode(t, n), InsertPos(t)) == t
  {
    var p := InsertPos(t);
    var r := InsertNode(t, n);
    assert r[..p] == t[..p];
    assert r[p + 1..] == t[p..];
  }

  /** An inserted node lands before the input area, after every other node. */
  lemma InsertLog(t: seq<Node>, n: Node)
    requires WellFormed(t)
    ensures Log(InsertNode(t, n)) == Log(t) + Log([n])
    ensures ErrorsOf(InsertNode(t, n)) == ErrorsOf(t) + ErrorsOf([n])
  {
    var p := InsertPos(t);
    var head := t[..p];
    var tail := t[p..];
    assert Log(tail) == [] && ErrorsOf(tail) == [] by {
      if p < |t| {
        assert tail == [InputArea];
        LogSingle(InputArea);
      }
    }
    assert Log(t) == Log(head) by {
      assert t == head + tail;
      LogConcat(head, tail);
    }
    assert ErrorsOf(t) == ErrorsOf(head) by {
      assert t == head + tail;
      ErrorsConcat(head, tail);
    }
    assert Log(InsertNode(t, n)) == Log(head) + Log([n]) by {
      LogConcat(head + [n], tail);
      LogConcat(head, [n]);
    }
    assert ErrorsOf(InsertNode(t, n)) == ErrorsOf(head) + ErrorsOf([n]) by {
      ErrorsConcat(head + [n], tail);
      ErrorsConcat(head, [n]);
    }
  }

  lemma InsertWellFormed(t: seq<Node>, n: Node)
    requires WellFormed(t) && n != Loading && n != InputArea && n != Welcome
    ensures WellFormed(InsertNode(t, n))
    ensures InputArea in InsertNode(t, n) <==> InputArea in t
  {
    var p := InsertPos(t);
    var r := InsertNode(t, n);
    assert forall i :: 0 <= i < p ==> r[i] == t[i];
    assert r[p] == n;
    assert forall i :: p < i < |r| ==> r[i] == t[i - 1];
  }

  lemma RemoveAtWellFormed(t: seq<Node>, i: nat)
    requires WellFormed(t) && i < |t| && t[i] != InputArea
    ensures WellFormed(RemoveAt(t, i))
    ensures InputArea in RemoveAt(t, i) <==> InputArea in t
  {
    var r := RemoveAt(t, i);
    assert forall j :: 0 <= j < i ==> r[j] == t[j];
    assert forall j :: i <= j < |r| ==> r[j] == t[j + 1];
  }

  lemma RemoveFirstWellFormed(t: seq<Node>, k: Kind)
    requires WellFormed(t)
    ensures WellFormed(RemoveFirst(t, k))
    ensures InputArea in RemoveFirst(t, k) <==> InputArea in t
  {
    if FirstOf(t, k).Some? {
      RemoveAtWellFormed(t, FirstOf(t, k).value);
    }
  }

  /** Removing the welcome leaves the conversation as it was. */
  lemma RemoveWelcomeLog(t: seq<Node>)
    ensures Log(RemoveFirst(t, WelcomeKind)) == Log(t)
    ensures ErrorsOf(RemoveFirst(t, WelcomeKind)) == ErrorsOf(t)
  {
    if FirstOf(t, WelcomeKind).Some? {
      var i := FirstOf(t, WelcomeKind).value;
      assert t == t[..i] + [t[i]] + t[i + 1..];
      LogConcat(t[..i] + [t[i]], t[i + 1..]);
      LogConcat(t[..i], [t[i]]);
      LogConcat(t[..i], t[i + 1..]);
      ErrorsConcat(t[..i] + [t[i]], t[i + 1..]);
      ErrorsConcat(t[..i], [t[i]]);
      ErrorsConcat(t[..i], t[i + 1..]);
      LogSingle(t[i]);
    }
  }

  lemma {:induction false} ErrorsNone(t: seq<Node>)
    requires forall i :: 0 <= i < |t| ==> !t[i].Error?
    ensures ErrorsOf(t) == []
  {
    if t != [] {
      ErrorsNone(t[1..]);
    }
  }

  /**
    Retry removes the first error bubble in document order and keeps every
    later one, in order.
   */
  lemma RemoveFirstError(t: seq<Node>)
    ensures ErrorsOf(t) == [] ==> RemoveFirst(t, ErrorKind) == t
    ensures ErrorsOf(t) != [] ==> ErrorsOf(RemoveFirst(t, ErrorKind)) == ErrorsOf(t)[1..]
    ensures Log(RemoveFirst(t, ErrorKind)) == RemoveFirst(Log(t), ErrorKind)
  {
    match FirstOf(t, ErrorKind)
    case None =>
      ErrorsNone(t);
      LogNoError(t);
    case Some(i) =>
      assert t == t[..i] + [t[i]] + t[i + 1..];
      ErrorsNone(t[..i]);
      ErrorsConcat(t[..i] + [t[i]], t[i + 1..]);
      ErrorsConcat(t[..i], [t[i]]);
      ErrorsConcat(t[..i], t[i + 1..]);
      LogSingle(t[i]);
      RemoveFirstErrorLog(t, i);
  }

  /** In the conversation shown, the first error bubble of the thread is the first error entry. */
  lemma RemoveFirstErrorLog(t: seq<Node>, i: nat)
    requires FirstOf(t, ErrorKind) == Some(i)
    ensures Log(RemoveAt(t, i)) == RemoveFirst(Log(t), ErrorKind)
  {
    var a, b := Log(t[..i]), Log(t[i + 1..]);
    assert t == t[..i] + [t[i]] + t[i + 1..];
    LogConcat(t[..i] + [t[i]], t[i + 1..]);
    LogConcat(t[..i], [t[i]]);
    LogConcat(t[..i], t[i + 1..]);
    LogSingle(t[i]);
    LogNoError(t[..i]);
    FirstOfSplit(a, t[i], b, ErrorKind);
    assert Log(t) == a + [t[i]] + b;
    assert (a + [t[i]] + b)[..|a|] == a && (a + [t[i]] + b)[|a| + 1..] == b;
  }

  /** A thread without error bubbles shows no error entry. */
  lemma {:induction false} LogNoError(t: seq<Node>)
    requires forall i :: 0 <= i < |t| ==> !t[i].Error?
    ensures forall i :: 0 <= i < |Log(t)| ==> !Log(t)[i].Error?
  {
    if t != [] {
      LogNoError(t[1..]);
    }
  }

  /** The first node of a kind, when nothing before it has that kind. */
  lemma FirstOfSplit(a: seq<Node>, n: Node, b: seq<Node>, k: Kind)
    requires OfKind(n, k) && forall i :: 0 <= i < |a| ==> !OfKind(a[i], k)
    ensures FirstOf(a + [n] + b, k) == Some(|a|)
  {
    var t := a + [n] + b;
    assert t[|a|] == n;
    assert forall i :: 0 <= i < |a| ==> t[i] == a[i];
  }

  /** A thread without a welcome or an input area only grows at the end. */
  lemma AppendAtEnd(t: seq<Node>, n: Node)
    requires forall i :: 0 <= i < |t| ==> t[i] != Welcome && t[i] != InputArea
    ensures RemoveFirst(t, WelcomeKind) == t
    ensures InsertNode(t, n) == t + [n]
  {
    assert t[..|t|] == t;
  }

  /** A character that no step of the formatter rewrites. */
  predicate PlainChar(c: char) {
    c != '`' && c != '_' && c != '\n' && c != '&' && c != '<' && c != '>'
  }

  /** Text that every step of the formatter leaves as it is. */
  predicate PlainText(s: string) {
    forall i :: 0 <= i < |s| ==> PlainChar(s[i])
  }

  lemma PlainTextConcat(a: string, b: string)
    requires PlainText(a) && PlainText(b)
    ensures PlainText(a + b)
  {
    forall i | 0 <= i < |a + b| ensures PlainChar((a + b)[i]) {
      if i < |a| {
        assert (a + b)[i] == a[i];
      } else {
        assert (a + b)[i] == b[i - |a|];
      }
    }
  }

  lemma PlainTextRenders(s: string)
    requires PlainText(s)
    ensures Format(s) == Ok(s)
  {
    assert '`' !in s && '_' !in s && '\n' !in s && NoMarkup(s);
    PlainContent(s);
    ReplaceAllAbsent(s, '\n', "<br>");
  }

  lemma Advisory0Plain() ensures PlainText(Advisory0) {}
  lemma Advisory1Plain() ensures PlainText(Advisory1) {}
  lemma Advisory2Plain() ensures PlainText(Advisory2) {}
  lemma Advisory3Plain() ensures PlainText(Advisory3) {}
  lemma Advisory4Plain() ensures PlainText(Advisory4) {}

  /** The same string, character by character. */
  function Rebuilt(t: string): string {
    seq(|t|, i requires 0 <= i < |t| => t[i])
  }

  lemma AdvisoryIsText()
    ensures Advisory == AdvisoryText
  {
  }

  /** The advisory shown for a missing key is plain text: appending it always completes. */
  lemma AdvisoryRenders()
    ensures Format(Advisory) == Ok(Advisory)
    ensures Renders(Advisory)
  {
    RendersIsFormat(Advisory);
    Advisory0Plain();
    Advisory1Plain();
    Advisory2Plain();
    Advisory3Plain();
    Advisory4Plain();
    PlainTextConcat(Advisory0, Advisory1);
    PlainTextConcat(Advisory0 + Advisory1, Advisory2);
    PlainTextConcat(Advisory0 + Advisory1 + Advisory2, Advisory3);
    PlainTextConcat(Advisory0 + Advisory1 + Advisory2 + Advisory3, Advisory4);
    AdvisoryIsText();
    PlainTextRenders(Advisory);
  }

  // ---------------------------------------------------------------------
  // The handlers, as functions of the page state
  // ---------------------------------------------------------------------

  /**
    What the handlers read and change: the stored history and key, the
    thread, whether the input area is displayed, and the input's text.
   */
  datatype State = State(
    history: seq<Message>,
    apiKey: Option<string>,
    thread: seq<Node>,
    inputVisible: bool,
    draft: string)

  /**
    Appending one message: the welcome goes first; then, unless the
    content makes rendering throw, its bubble is inserted before the input
    area (or at the end).
   */
  function AppendThread(t: seq<Node>, role: string, content: string): seq<Node> {
    var t1 := RemoveFirst(t, WelcomeKind);
    if Renders(content) then InsertNode(t1, Bubble(role, content)) else t1
  }

  /** The first stored message whose rendering throws. */
  function FirstUnrenderable(h: seq<Message>): (r: Option<nat>)
    ensures r.Some? ==> r.value < |h| && !Renders(h[r.value].content)
    ensures r.Some? ==> forall i {:trigger Renders(h[i].content)} :: 0 <= i < r.value ==> Renders(h[i].content)
    ensures r.None? ==> forall i {:trigger Renders(h[i].content)} :: 0 <= i < |h| ==> Renders(h[i].content)
  {
    if h == [] then None
    else if !Renders(h[0].content) then Some(0)
    else
      var t := h[1..];
      assert forall j :: 0 < j < |h| ==> t[j - 1] == h[j];
      match FirstUnrenderable(t)
      case Some(i) => Some(i + 1)
      case None => None
  }

  /**
    The thread after loading: the welcome for an empty history, otherwise
    one bubble per stored message; the input area goes back at the bottom
    if it was on the page. A message whose rendering throws ends the load
    at that message, and the detached input area is never put back.
   */
  function LoadedThread(h: seq<Message>, hadInput: bool): seq<Node> {
    match FirstUnrenderable(h)
    case Some(k) => Bubbles(h[..k])
    case None => (if h == [] then [Welcome] else Bubbles(h)) + (if hadInput then [InputArea] else [])
  }

  function LoadSpec(s: State): State {
    var hadInput := InputArea in s.thread;
    var complete := FirstUnrenderable(s.history).None?;
    s.(thread := LoadedThread(s.history, hadInput),
       inputVisible := if hadInput && complete then true else s.inputVisible)
  }

  /** The thread after the request, without the loading indicator (already removed). */
  function OutcomeThread(t: seq<Node>, o: Outcome): seq<Node> {
    match o
    case Reply(text) =>
      if Renders(text) then AppendThread(t, "assistant", text)
      else InsertNode(AppendThread(t, "assistant", text), Error(UndefinedBlockMessage))
    case _ => InsertNode(t, Error(FailureMessage(o)))
  }

  /**
    Processing a response for the history `passed`. With the key missing
    no request is made and the advisory is shown but never stored. A
    reply is shown and stored after `passed`; a failed request, or a reply
    whose rendering throws, shows an error bubble and stores nothing. In
    every case the input area, when on the page, is displayed again.
   */
  function ProcessSpec(s: State, passed: seq<Message>, o: Outcome): State {
    if KeyMissing(s.apiKey) then
      var t := AppendThread(s.thread, "assistant", Advisory);
      s.(thread := t, inputVisible := if InputArea in t then true else s.inputVisible)
    else
      var t := OutcomeThread(s.thread, o);
      s.(thread := t,
         inputVisible := if InputArea in t then true else s.inputVisible,
         history := if o.Reply? && Renders(o.text) then passed + [Message("assistant", o.text)] else s.history)
  }

  /**
    Sending the input's text. Blank text (after trimming) does nothing.
    Otherwise the input area is hidden and the user's bubble appended; if
    that rendering throws, the handler stops there (text kept, nothing
    stored, input left hidden). Otherwise the input is cleared, the
    message stored, and the response processed for the new history.
   */
  function SendSpec(s: State, o: Outcome): State {
    var text := Trim(s.draft);
    if text == [] then s
    else if !Renders(text) then Shown(s, text)
    else ProcessSpec(Submitted(s, text), Submitted(s, text).history, o)
  }

  /** The input area hidden and the user's bubble appended. */
  function Shown(s: State, text: string): State {
    s.(inputVisible := if InputArea in s.thread then false else s.inputVisible,
       thread := AppendThread(s.thread, "user", text))
  }

  /** Then the input cleared and the message stored. */
  function Submitted(s: State, text: string): State {
    Shown(s, text).(draft := [], history := s.history + [Message("user", text)])
  }

  /** Retry: remove the first error bubble, then process the stored history again. */
  function RetrySpec(s: State, o: Outcome): State {
    ProcessSpec(s.(thread := RemoveFirst(s.thread, ErrorKind)), s.history, o)
  }

  /** The key the save handler stores: the trimmed entry, or none when that is empty. */
  function SavedKey(entered: string): (k: Option<string>)
    ensures k.Some? ==> k.value == Trim(entered)
  {
    var v := Trim(entered);
    if v != [] then Some(v) else None
  }

  /** The saved theme the theme loader leaves: the saved one when set and nonempty, else the default. */
  function LoadedTheme(saved: Option<string>): string {
    if saved.Some? && saved.value != [] then saved.value else DefaultTheme
  }

  // ---------------------------------------------------------------------
  // Properties of the handlers
  // ---------------------------------------------------------------------

  lemma {:induction false} LogBubbles(h: seq<Message>)
    ensures Log(Bubbles(h)) == Bubbles(h)
    ensures ErrorsOf(Bubbles(h)) == []
  {
    if h != [] {
      LogBubbles(h[1..]);
      assert Bubbles(h)[1..] == Bubbles(h[1..]);
    }
  }

  /** Only the first node can be a welcome, so removing the first one removes them all. */
  lemma RemoveWelcomeAll(t: seq<Node>)
    requires WellFormed(t)
    ensures Welcome !in RemoveFirst(t, WelcomeKind)
  {
    if FirstOf(t, WelcomeKind).Some? {
      assert FirstOf(t, WelcomeKind).value == 0;
      assert RemoveFirst(t, WelcomeKind) == t[1..];
    }
  }

  /**
    Appending a message keeps the thread's shape, removes the welcome and
    adds the message's bubble at the end of the conversation exactly when
    its rendering completes.
   */
  lemma AppendThreadShape(t: seq<Node>, role: string, content: string)
    requires WellFormed(t)
    ensures var r := AppendThread(t, role, content);
            && WellFormed(r)
            && (InputArea in r <==> InputArea in t)
            && Welcome !in r
            && Log(r) == Log(t) + (if Renders(content) then [Bubble(role, content)] else [])
            && ErrorsOf(r) == ErrorsOf(t)
  {
    var t1 := RemoveFirst(t, WelcomeKind);
    RemoveFirstWellFormed(t, WelcomeKind);
    RemoveWelcomeLog(t);
    RemoveWelcomeAll(t);
    if Renders(content) {
      var n := Bubble(role, content);
      InsertWellFormed(t1, n);
      InsertLog(t1, n);
      LogSingle(n);
      assert Welcome !in InsertNode(t1, n) by {
        var p := InsertPos(t1);
        assert InsertNode(t1, n) == t1[..p] + [n] + t1[p..];
      }
    }
  }

  lemma OutcomeThreadShape(t: seq<Node>, o: Outcome)
    requires WellFormed(t)
    ensures var r := OutcomeThread(t, o);
            && WellFormed(r)
            && (InputArea in r <==> InputArea in t)
            && (o.Reply? && Renders(o.text) ==>
                  Log(r) == Log(t) + [Bubble("assistant", o.text)] && ErrorsOf(r) == ErrorsOf(t))
            && (o.Reply? && !Renders(o.text) ==>
                  Log(r) == Log(t) + [Error(UndefinedBlockMessage)]
                  && ErrorsOf(r) == ErrorsOf(t) + [UndefinedBlockMessage])
            && (!o.Reply? ==>
                  Log(r) == Log(t) + [Error(FailureMessage(o))]
                  && ErrorsOf(r) == ErrorsOf(t) + [FailureMessage(o)])
  {
    match o
    case Reply(text) =>
      AppendThreadShape(t, "assistant", text);
      if !Renders(text) {
        var t1 := AppendThread(t, "assistant", text);
        var n := Error(UndefinedBlockMessage);
        InsertWellFormed(t1, n);
        InsertLog(t1, n);
        LogSingle(n);
      }
    case _ =>
      var n := Error(FailureMessage(o));
      InsertWellFormed(t, n);
      InsertLog(t, n);
      LogSingle(n);
  }

  /**
    Processing keeps the thread's shape, leaves no loading indicator, and
    displays the input area again whenever it is on the page; the key and
    the input's text are untouched.
   */
  lemma ProcessShape(s: State, passed: seq<Message>, o: Outcome)
    requires WellFormed(s.thread)
    ensures var r := ProcessSpec(s, passed, o);
            && WellFormed(r.thread)
            && (InputArea in r.thread <==> InputArea in s.thread)
            && (InputArea in s.thread ==> r.inputVisible)
            && r.apiKey == s.apiKey && r.draft == s.draft
  {
    if KeyMissing(s.apiKey) {
      AppendThreadShape(s.thread, "assistant", Advisory);
    } else {
      OutcomeThreadShape(s.thread, o);
    }
  }

  /**
    With the key missing no request is made (the outcome does not
    matter), the advisory is shown after the conversation and nothing is
    stored.
   */
  lemma ProcessMissingKey(s: State, passed: seq<Message>, o: Outcome, other: Outcome)
    requires WellFormed(s.thread) && KeyMissing(s.apiKey)
    ensures ProcessSpec(s, passed, o) == ProcessSpec(s, passed, other)
    ensures ProcessSpec(s, passed, o).history == s.history
    ensures Log(ProcessSpec(s, passed, o).thread) == Log(s.thread) + [Bubble("assistant", Advisory)]
  {
    AdvisoryRenders();
    AppendThreadShape(s.thread, "assistant", Advisory);
  }

  /** A reply is shown after the conversation and stored after the history that was processed. */
  lemma ProcessReply(s: State, passed: seq<Message>, text: string)
    requires WellFormed(s.thread) && !KeyMissing(s.apiKey) && Renders(text)
    ensures var r := ProcessSpec(s, passed, Reply(text));
            && r.history == passed + [Message("assistant", text)]
            && Log(r.thread) == Log(s.thread) + [Bubble("assistant", text)]
            && ErrorsOf(r.thread) == ErrorsOf(s.thread)
  {
    OutcomeThreadShape(s.thread, Reply(text));
  }

  /**
    A failed request, or a reply whose rendering throws, stores nothing
    and adds one error bubble with the error's message after the
    conversation.
   */
  lemma ProcessFailure(s: State, passed: seq<Message>, o: Outcome)
    requires WellFormed(s.thread) && !KeyMissing(s.apiKey)
    requires !o.Reply? || !Renders(o.text)
    ensures var r := ProcessSpec(s, passed, o);
            var m := if o.Reply? then UndefinedBlockMessage else FailureMessage(o);
            && r.history == s.history
            && Log(r.thread) == Log(s.thread) + [Error(m)]
            && ErrorsOf(r.thread) == ErrorsOf(s.thread) + [m]
  {
    OutcomeThreadShape(s.thread, o);
  }

  /** Every stored message can be rendered (so a reload shows all of them). */
  predicate StoredRenders(h: seq<Message>) {
    forall i {:trigger Renders(h[i].content)} :: 0 <= i < |h| ==> Renders(h[i].content)
  }

  lemma ProcessStoredRenders(s: State, passed: seq<Message>, o: Outcome)
    requires StoredRenders(s.history) && StoredRenders(passed)
    ensures StoredRenders(ProcessSpec(s, passed, o).history)
  {
  }

  /** Blank text is not sent: the whole state stays as it was. */
  lemma SendBlank(s: State, o: Outcome)
    requires AllWhitespace(s.draft)
    ensures SendSpec(s, o) == s
  {
    TrimEmptyIff(s.draft);
  }

  /** Processing adds exactly one node to the conversation, after what was there. */
  lemma ProcessLogGrows(s: State, passed: seq<Message>, o: Outcome)
    requires WellFormed(s.thread)
    ensures var l := Log(ProcessSpec(s, passed, o).thread);
            |l| == |Log(s.thread)| + 1 && l[..|Log(s.thread)|] == Log(s.thread)
  {
    if KeyMissing(s.apiKey) {
      ProcessMissingKey(s, passed, o, o);
    } else if o.Reply? && Renders(o.text) {
      ProcessReply(s, passed, o.text);
    } else {
      ProcessFailure(s, passed, o);
    }
  }

  /** Processing the stored history either leaves it or extends it by the reply. */
  lemma ProcessHistoryGrows(s: State, o: Outcome)
    ensures var r := ProcessSpec(s, s.history, o);
            && |s.history| <= |r.history| <= |s.history| + 1
            && r.history[..|s.history|] == s.history
            && (|r.history| == |s.history| + 1 <==> !KeyMissing(s.apiKey) && o.Reply? && Renders(o.text))
  {
    var r := ProcessSpec(s, s.history, o);
    if r.history != s.history {
      assert (s.history + [Message("assistant", o.text)])[..|s.history|] == s.history;
    }
  }

  /**
    Sending text whose bubble renders stores exactly one message for the
    user, the trimmed text, then at most the reply, and clears the input.
   */
  lemma SendStoresUser(s: State, o: Outcome)
    requires Trim(s.draft) != [] && Renders(Trim(s.draft))
    ensures var r := SendSpec(s, o);
            var user := Message("user", Trim(s.draft));
            && |s.history| + 1 <= |r.history| <= |s.history| + 2
            && r.history[..|s.history| + 1] == s.history + [user]
            && (|r.history| == |s.history| + 2 <==> !KeyMissing(s.apiKey) && o.Reply? && Renders(o.text))
            && (|r.history| == |s.history| + 2 ==> o.Reply? && r.history[|s.history| + 1] == Message("assistant", o.text))
            && r.draft == []
  {
    var s1 := Submitted(s, Trim(s.draft));
    assert SendSpec(s, o) == ProcessSpec(s1, s1.history, o);
    ProcessHistoryGrows(s1, o);
  }

  /**
    Sending text whose bubble renders shows the user's bubble next in the
    conversation, followed by one more node, and the input area again.
   */
  lemma SendShowsUser(s: State, o: Outcome)
    requires WellFormed(s.thread)
    requires Trim(s.draft) != [] && Renders(Trim(s.draft))
    ensures var r := SendSpec(s, o);
            && |Log(r.thread)| == |Log(s.thread)| + 2
            && Log(r.thread)[..|Log(s.thread)| + 1] == Log(s.thread) + [Bubble("user", Trim(s.draft))]
            && (InputArea in s.thread ==> r.inputVisible)
  {
    var text := Trim(s.draft);
    var s1 := Submitted(s, text);
    var t := s1.thread;
    assert SendSpec(s, o) == ProcessSpec(s1, s1.history, o);
    AppendThreadShape(s.thread, "user", text);
    ProcessLogGrows(s1, s1.history, o);
    ProcessShape(s1, s1.history, o);
  }

  /**
    Sending text whose bubble throws stops the handler part-way: nothing
    is stored, the text stays in the input, and the input area stays
    hidden.
   */
  lemma SendStopsWhenBubbleThrows(s: State, o: Outcome)
    requires WellFormed(s.thread)
    requires Trim(s.draft) != [] && !Renders(Trim(s.draft))
    ensures var r := SendSpec(s, o);
            && r.history == s.history && r.draft == s.draft
            && (InputArea in s.thread ==> InputArea in r.thread && !r.inputVisible)
            && Log(r.thread) == Log(s.thread)
  {
    AppendThreadShape(s.thread, "user", Trim(s.draft));
  }

  /** Sending keeps the thread's shape, and a stored history that renders keeps rendering. */
  lemma SendInvariants(s: State, o: Outcome)
    requires WellFormed(s.thread)
    ensures WellFormed(SendSpec(s, o).thread)
    ensures StoredRenders(s.history) ==> StoredRenders(SendSpec(s, o).history)
  {
    var text := Trim(s.draft);
    if text != [] {
      AppendThreadShape(s.thread, "user", text);
      if Renders(text) {
        var s1 := Submitted(s, text);
        var h := s1.history;
        ProcessShape(s1, h, o);
        if StoredRenders(s.history) {
          assert StoredRenders(h);
          ProcessStoredRenders(s1, h, o);
        }
      }
    }
  }

  /**
    Retry removes the first error bubble, keeps every other entry of the
    conversation, and processes the stored history unchanged. With no key
    the advisory follows; a reply that renders is shown and stored after
    the history; otherwise a new error bubble follows the remaining ones.
   */
  lemma RetryOutcome(s: State, o: Outcome)
    requires WellFormed(s.thread)
    ensures var r := RetrySpec(s, o);
            var shown := RemoveFirst(Log(s.thread), ErrorKind);
            var errors := if ErrorsOf(s.thread) == [] then [] else ErrorsOf(s.thread)[1..];
            && WellFormed(r.thread)
            && (KeyMissing(s.apiKey) ==>
                  r.history == s.history
                  && Log(r.thread) == shown + [Bubble("assistant", Advisory)]
                  && ErrorsOf(r.thread) == errors)
            && (!KeyMissing(s.apiKey) && o.Reply? && Renders(o.text) ==>
                  r.history == s.history + [Message("assistant", o.text)]
                  && Log(r.thread) == shown + [Bubble("assistant", o.text)]
                  && ErrorsOf(r.thread) == errors)
            && (!KeyMissing(s.apiKey) && o.Reply? && !Renders(o.text) ==>
                  r.history == s.history
                  && Log(r.thread) == shown + [Error(UndefinedBlockMessage)]
                  && ErrorsOf(r.thread) == errors + [UndefinedBlockMessage])
            && (!KeyMissing(s.apiKey) && !o.Reply? ==>
                  r.history == s.history
                  && Log(r.thread) == shown + [Error(FailureMessage(o))]
                  && ErrorsOf(r.thread) == errors + [FailureMessage(o)])
  {
    var s1 := s.(thread := RemoveFirst(s.thread, ErrorKind));
    RemoveFirstError(s.thread);
    RemoveFirstWellFormed(s.thread, ErrorKind);
    ProcessShape(s1, s.history, o);
    if KeyMissing(s.apiKey) {
      AdvisoryRenders();
      AppendThreadShape(s1.thread, "assistant", Advisory);
    } else {
      OutcomeThreadShape(s1.thread, o);
    }
  }

  lemma RetryInvariants(s: State, o: Outcome)
    requires WellFormed(s.thread)
    ensures WellFormed(RetrySpec(s, o).thread)
    ensures StoredRenders(s.history) ==> StoredRenders(RetrySpec(s, o).history)
  {
    RemoveFirstWellFormed(s.thread, ErrorKind);
    ProcessShape(s.(thread := RemoveFirst(s.thread, ErrorKind)), s.history, o);
  }

  lemma LoadedPartial(h: seq<Message>, k: nat)
    requires k <= |h|
    ensures WellFormed(Bubbles(h[..k]))
    ensures Welcome !in Bubbles(h[..k]) && InputArea !in Bubbles(h[..k])
    ensures Log(Bubbles(h[..k])) == Bubbles(h[..k]) && ErrorsOf(Bubbles(h[..k])) == []
  {
    LogBubbles(h[..k]);
  }

  lemma LoadedComplete(h: seq<Message>, hadInput: bool)
    ensures var t := (if h == [] then [Welcome] else Bubbles(h)) + (if hadInput then [InputArea] else []);
            && WellFormed(t)
            && (Welcome in t <==> h == [])
            && (InputArea in t <==> hadInput)
            && Log(t) == Bubbles(h)
            && ErrorsOf(t) == []
  {
    var tail: seq<Node> := if hadInput then [InputArea] else [];
    if h == [] {
      LogSingle(Welcome);
      LoadedWithTail([Welcome], tail);
    } else {
      LogBubbles(h);
      LoadedWithTail(Bubbles(h), tail);
    }
  }

  /** What is loaded, with the input area put back after it or not. */
  lemma LoadedWithTail(shown: seq<Node>, tail: seq<Node>)
    requires tail == [] || tail == [InputArea]
    requires forall i :: 0 <= i < |shown| ==> shown[i] != Loading && shown[i] != InputArea
    requires forall i :: 0 < i < |shown| ==> shown[i] != Welcome
    ensures WellFormed(shown + tail)
    ensures Welcome in shown + tail <==> Welcome in shown
    ensures InputArea in shown + tail <==> tail != []
    ensures Log(shown + tail) == Log(shown) && ErrorsOf(shown + tail) == ErrorsOf(shown)
  {
    LogSingle(InputArea);
    LogConcat(shown, tail);
    ErrorsConcat(shown, tail);
    if tail == [] {
      assert shown + tail == shown;
      assert InputArea !in shown;
    } else {
      InputAreaLast(shown);
    }
  }

  lemma InputAreaLast(shown: seq<Node>)
    requires forall i :: 0 <= i < |shown| ==> shown[i] != Loading && shown[i] != InputArea
    requires forall i :: 0 < i < |shown| ==> shown[i] != Welcome
    ensures WellFormed(shown + [InputArea])
    ensures Welcome in shown + [InputArea] <==> Welcome in shown
  {
    var t := shown + [InputArea];
    assert forall i :: 0 <= i < |shown| ==> t[i] == shown[i];
    assert t[|shown|] == InputArea;
  }

  /**
    After loading, the welcome is shown exactly when the history is empty,
    and the conversation is the stored messages in order (up to the first
    one whose rendering throws); the input area is back exactly when it
    was on the page and the load completed.
   */
  lemma LoadedThreadShape(h: seq<Message>, hadInput: bool)
    ensures var t := LoadedThread(h, hadInput);
            && WellFormed(t)
            && (Welcome in t <==> h == [])
            && (InputArea in t <==> hadInput && FirstUnrenderable(h).None?)
            && Log(t) == (match FirstUnrenderable(h) case Some(k) => Bubbles(h[..k]) case None => Bubbles(h))
            && ErrorsOf(t) == []
  {
    match FirstUnrenderable(h)
    case Some(k) =>
      LoadedPartial(h, k);
    case None =>
      LoadedComplete(h, hadInput);
  }

  /** A history that renders is shown completely after a reload. */
  lemma LoadStored(s: State)
    requires StoredRenders(s.history)
    ensures Log(LoadSpec(s).thread) == Bubbles(s.history)
    ensures InputArea in s.thread ==> InputArea in LoadSpec(s).thread && LoadSpec(s).inputVisible
  {
    LoadedThreadShape(s.history, InputArea in s.thread);
  }

  /**
    Saving the key stores the entry without its surrounding white space,
    and clears the key exactly when the entry is blank.
   */
  lemma SavedKeySpec(entered: string)
    ensures KeyMissing(SavedKey(entered)) <==> AllWhitespace(entered)
    ensures SavedKey(entered).Some? ==>
              var (i, j) := TrimBounds(entered);
              && SavedKey(entered).value == entered[i..j]
              && AllWhitespace(entered[..i]) && AllWhitespace(entered[j..])
              && !IsJsWhitespace(SavedKey(entered).value[0])
              && !IsJsWhitespace(SavedKey(entered).value[|SavedKey(entered).value| - 1])
  {
    TrimEmptyIff(entered);
    TrimSpec(entered);
  }

  /** The theme loader always leaves a nonempty saved theme, and loading again changes nothing. */
  lemma LoadedThemeStable(saved: Option<string>)
    ensures LoadedTheme(saved) != []
    ensures !(saved.Some? && saved.value != []) ==> LoadedTheme(saved) == DefaultTheme
    ensures saved.Some? && saved.value != [] ==> LoadedTheme(saved) == saved.value
    ensures LoadedTheme(Some(LoadedTheme(saved))) == LoadedTheme(saved)
  {
  }

  // ---------------------------------------------------------------------
  // The widget
  // ---------------------------------------------------------------------

  /**
    The chat page: the persisted store (history, key, theme), the thread,
    the input area's display, the input's text and the root element's
    class. Each handler is proved to change the state as the matching
    function above says.
   */
  class ChatWidget {
    var history: seq<Message>
    var apiKey: Option<string>
    var savedTheme: Option<string>
    var thread: seq<Node>
    var inputVisible: bool
    var draft: string
    var rootClass: string

    function Snapshot(): State
      reads this
    {
      State(history, apiKey, thread, inputVisible, draft)
    }

    predicate Valid()
      reads this
    {
      WellFormed(thread)
    }

    /** A freshly opened page over the given store, with or without an input area in the thread. */
    constructor(storedHistory: seq<Message>, storedKey: Option<string>, storedTheme: Option<string>, hasInputArea: bool)
      ensures Valid()
      ensures history == storedHistory && apiKey == storedKey && savedTheme == storedTheme
      ensures thread == (if hasInputArea then [InputArea] else [])
      ensures inputVisible && draft == [] && rootClass == []
    {
      history := storedHistory;
      apiKey := storedKey;
      savedTheme := storedTheme;
      thread := if hasInputArea then [InputArea] else [];
      inputVisible := true;
      draft := [];
      rootClass := [];
    }

    /** `setCmdTheme`: apply a theme and save it. */
    method SetCmdTheme(name: string)
      modifies this
      ensures rootClass == name && savedTheme == Some(name)
      ensures Snapshot() == old(Snapshot())
    {
      rootClass := name;
      savedTheme := Some(name);
    }

    /** `loadTheme`: apply the saved theme, or apply and save the default one. */
    method LoadTheme()
      modifies this
      ensures rootClass == LoadedTheme(old(savedTheme))
      ensures savedTheme == Some(LoadedTheme(old(savedTheme)))
      ensures Snapshot() == old(Snapshot())
    {
      if savedTheme.Some? && savedTheme.value != [] {
        rootClass := savedTheme.value;
      } else {
        SetCmdTheme(DefaultTheme);
      }
    }

    /** The save button of the settings panel: store the trimmed key, or remove it when blank. */
    method SaveConfig(entered: string)
      modifies this
      ensures Snapshot() == old(Snapshot()).(apiKey := SavedKey(entered))
      ensures savedTheme == old(savedTheme) && rootClass == old(rootClass)
    {
      var v := Trim(entered);
      if v != [] {
        apiKey := Some(v);
      } else {
        apiKey := None;
      }
    }

    /**
      `appendMessageToUI`: remove the welcome, render the message, and
      insert its bubble before the input area; `shown` is false when the
      rendering throws, in which case no bubble is added.
     */
    method AppendMessage(role: string, content: string) returns (shown: bool)
      modifies this
      ensures shown == Renders(content)
      ensures Snapshot() == old(Snapshot()).(thread := AppendThread(old(thread), role, content))
      ensures savedTheme == old(savedTheme) && rootClass == old(rootClass)
    {
      RendersIsFormat(content);
      thread := RemoveFirst(thread, WelcomeKind);
      var view := RenderMessage(role, content);
      if view.Ok? {
        thread := InsertNode(thread, Bubble(role, content));
        shown := true;
      } else {
        shown := false;
      }
    }

    /**
      `loadChatHistory`: take the input area off the page, rebuild the
      thread from the stored history, and put the input area back. The
      result is false when a message's rendering throws and ends the load.
     */
    method LoadChatHistory() returns (complete: bool)
      requires Valid()
      modifies this
      ensures Valid()
      ensures complete <==> FirstUnrenderable(history).None?
      ensures Snapshot() == LoadSpec(old(Snapshot()))
      ensures savedTheme == old(savedTheme) && rootClass == old(rootClass)
    {
      var s0 := Snapshot();
      var hadInput := InputArea in thread;
      var h := history;
      thread := [];
      if |h| == 0 {
        thread := [Welcome];
        complete := true;
      } else {
        complete := ShowStored();
      }
      if hadInput && complete {
        thread := thread + [InputArea];
        inputVisible := true;
      }
      assert thread == LoadedThread(h, hadInput);
      assert Snapshot() == s0.(thread := thread, inputVisible := inputVisible);
      LoadedThreadShape(h, hadInput);
    }

    /** One bubble per stored message, in order, up to the first whose rendering throws. */
    method ShowStored() returns (complete: bool)
      requires thread == []
      modifies this
      ensures complete <==> FirstUnrenderable(history).None?
      ensures thread == match FirstUnrenderable(history)
                        case Some(k) => Bubbles(history[..k])
                        case None => Bubbles(history)
      ensures Snapshot() == old(Snapshot()).(thread := thread)
      ensures savedTheme == old(savedTheme) && rootClass == old(rootClass)
    {
      var i := 0;
      while i < |history|
        invariant 0 <= i <= |history|
        invariant thread == Bubbles(history[..i])
        invariant FirstUnrenderable(history[..i]).None?
        invariant Snapshot() == old(Snapshot()).(thread := thread)
        invariant savedTheme == old(savedTheme) && rootClass == old(rootClass)
      {
        var m := history[i];
        LoadStep(history, i);
        var shown := AppendMessage(m.role, m.content);
        if !shown {
          complete := false;
          return;
        }
        i := i + 1;
      }
      assert history[..i] == history;
      complete := true;
    }

    /**
      `processAIResponse`: show the loading indicator, then (by the key
      and the request's outcome) the advisory, the reply or an error
      bubble, storing only a reply; the input area is displayed again.
     */
    method ProcessAIResponse(passed: seq<Message>, outcome: Outcome)
      requires Valid()
      modifies this
      ensures Valid()
      ensures Snapshot() == ProcessSpec(old(Snapshot()), passed, outcome)
      ensures savedTheme == old(savedTheme) && rootClass == old(rootClass)
    {
      ProcessShape(Snapshot(), passed, outcome);
      ShowLoading();
      if KeyMissing(apiKey) {
        AnswerMissingKey();
      } else {
        AnswerOutcome(passed, outcome);
      }
    }

    /** The loading indicator is inserted before the input area and removed again once the answer is known. */
    method ShowLoading()
      modifies this
      ensures Snapshot() == old(Snapshot())
      ensures savedTheme == old(savedTheme) && rootClass == old(rootClass)
    {
      var before := thread;
      var at := InsertPos(thread);
      thread := InsertNode(thread, Loading);
      RemoveInserted(before, Loading);
      thread := RemoveAt(thread, at);
    }

    /** With no key the advisory is shown in the assistant's style and the input area displayed. */
    method AnswerMissingKey()
      requires KeyMissing(apiKey)
      modifies this
      ensures Snapshot() == ProcessSpec(old(Snapshot()), [], Reply([]))
      ensures savedTheme == old(savedTheme) && rootClass == old(rootClass)
    {
      var shown := AppendMessage("assistant", Advisory);
      if InputArea in thread {
        inputVisible := true;
      }
    }

    /** With a key the request's outcome is shown, and a rendered reply stored after `passed`. */
    method AnswerOutcome(passed: seq<Message>, outcome: Outcome)
      requires !KeyMissing(apiKey)
      modifies this
      ensures Snapshot() == ProcessSpec(old(Snapshot()), passed, outcome)
      ensures savedTheme == old(savedTheme) && rootClass == old(rootClass)
    {
      match outcome {
        case Reply(text) =>
          var shown := AppendMessage("assistant", text);
          if shown {
            history := passed + [Message("assistant", text)];
          } else {
            thread := InsertNode(thread, Error(UndefinedBlockMessage));
          }
        case HttpError(_) =>
          thread := InsertNode(thread, Error(FailureMessage(outcome)));
        case Failure(_) =>
          thread := InsertNode(thread, Error(FailureMessage(outcome)));
      }
      if InputArea in thread {
        inputVisible := true;
      }
    }

    /**
      `sendChatMessage`: send the trimmed input text, if any, storing it
      before the response is processed.
     */
    method SendChatMessage(outcome: Outcome)
      requires Valid()
      modifies this
      ensures Valid()
      ensures Snapshot() == SendSpec(old(Snapshot()), outcome)
      ensures savedTheme == old(savedTheme) && rootClass == old(rootClass)
    {
      SendInvariants(Snapshot(), outcome);
      var text := Trim(draft);
      if text == [] {
        return;
      }
      AppendThreadShape(thread, "user", text);
      var shown := SubmitText(text);
      if shown {
        ProcessAIResponse(history, outcome);
      }
    }

    /**
      The user's side of sending: hide the input area and show the text;
      when that rendering succeeds, clear the input and store the text.
     */
    method SubmitText(text: string) returns (shown: bool)
      modifies this
      ensures shown == Renders(text)
      ensures Snapshot() == if shown then Submitted(old(Snapshot()), text) else Shown(old(Snapshot()), text)
      ensures savedTheme == old(savedTheme) && rootClass == old(rootClass)
    {
      if InputArea in thread {
        inputVisible := false;
      }
      shown := AppendMessage("user", text);
      if shown {
        draft := [];
        history := history + [Message("user", text)];
      }
    }

    /** `retryLastMessage`: remove the first error bubble and process the stored history again. */
    method RetryLastMessage(outcome: Outcome)
      requires Valid()
      modifies this
      ensures Valid()
      ensures Snapshot() == RetrySpec(old(Snapshot()), outcome)
      ensures savedTheme == old(savedTheme) && rootClass == old(rootClass)
    {
      RemoveFirstWellFormed(thread, ErrorKind);
      thread := RemoveFirst(thread, ErrorKind);
      var h := history;
      ProcessAIResponse(h, outcome);
    }
  }

  /**
    One step of the load: appending the next stored message to the bubbles
    of the ones before it adds its bubble at the end when it renders, and
    otherwise leaves the thread as it is and ends the load there.
   */
  lemma LoadStep(h: seq<Message>, i: nat)
    requires i < |h| && FirstUnrenderable(h[..i]).None?
    ensures AppendThread(Bubbles(h[..i]), h[i].role, h[i].content)
            == if Renders(h[i].content) then Bubbles(h[..i + 1]) else Bubbles(h[..i])
    ensures Renders(h[i].content) ==> FirstUnrenderable(h[..i + 1]).None?
    ensures !Renders(h[i].content) ==> FirstUnrenderable(h) == Some(i)
  {
    if Renders(h[i].content) {
      TakeOneMore(h, i);
      FirstUnrenderableSnoc(h[..i], h[i]);
    } else {
      FirstUnrenderablePrefix(h, i);
      FirstUnrenderableAt(h, i);
    }
    AppendBubble(h, i);
  }

  lemma TakeOneMore<T>(h: seq<T>, i: nat)
    requires i < |h|
    ensures h[..i + 1] == h[..i] + [h[i]]
  {
  }

  lemma {:induction false} FirstUnrenderableSnoc(p: seq<Message>, m: Message)
    requires FirstUnrenderable(p).None? && Renders(m.content)
    ensures FirstUnrenderable(p + [m]).None?
  {
    if p == [] {
      assert [] + [m] == [m];
    } else {
      assert (p + [m])[1..] == p[1..] + [m];
      FirstUnrenderableSnoc(p[1..], m);
    }
  }

  lemma FirstUnrenderablePrefix(h: seq<Message>, i: nat)
    requires i <= |h| && FirstUnrenderable(h[..i]).None?
    ensures forall j {:trigger Renders(h[j].content)} :: 0 <= j < i ==> Renders(h[j].content)
  {
    var p := h[..i];
    forall j | 0 <= j < i ensures Renders(h[j].content) {
      assert p[j] == h[j];
    }
  }

  /** The bubbles of a prefix, extended by the next message. */
  lemma AppendBubble(h: seq<Message>, i: nat)
    requires i < |h|
    ensures AppendThread(Bubbles(h[..i]), h[i].role, h[i].content)
            == if Renders(h[i].content) then Bubbles(h[..i + 1]) else Bubbles(h[..i])
  {
    var t := Bubbles(h[..i]);
    LoadedPartial(h, i);
    AppendAtEnd(t, Bubble(h[i].role, h[i].content));
    assert h[..i + 1] == h[..i] + [h[i]];
    BubblesConcat(h[..i], [h[i]]);
  }

  lemma FirstUnrenderableAt(h: seq<Message>, i: nat)
    requires i < |h| && !Renders(h[i].content)
    requires forall j {:trigger Renders(h[j].content)} :: 0 <= j < i ==> Renders(h[j].content)
    ensures FirstUnrenderable(h) == Some(i)
  {
  }

  lemma BubblesConcat(a: seq<Message>, b: seq<Message>)
    ensures Bubbles(a + b) == Bubbles(a) + Bubbles(b)
  {
  }
}
