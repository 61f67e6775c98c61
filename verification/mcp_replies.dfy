/** From what a JSON-RPC 2.0 server says to what the caller is told: replies are built here
    from the server's answer and read by the client (integrations/hermes/core/client.py). */
module McpReplies {
  import opened Common
  import opened McpClient

  // ----- Text ---------------------------------------------------------------------------------

  /** The word stands at place `i`; with `Named` in any spelling. */
  ghost predicate OccursAt(s: string, word: string, i: nat) {
    i + |word| <= |s| && forall k :: 0 <= k < |word| ==> s[i + k] == word[k]
  }

  ghost predicate Occurs(s: string, word: string) {
    exists i: nat :: OccursAt(s, word, i)
  }

  ghost predicate NamedAt(s: string, word: string, i: nat) {
    i + |word| <= |s| && forall k :: 0 <= k < |word| ==> SameLetter(s[i + k], word[k])
  }

  /** The small letter itself, or its capital. */
  predicate SameLetter(c: char, small: char) {
    c == small || ('a' <= small <= 'z' && c == small - 'a' + 'A')
  }

  predicate SmallLetters(word: string) {
    forall k :: 0 <= k < |word| ==> 'a' <= word[k] <= 'z'
  }

  ghost predicate Named(s: string, word: string) {
    exists i: nat :: NamedAt(s, word, i)
  }

  lemma {:induction false} ContainsExactly(s: string, word: string)
    ensures Contains(s, word) <==> Occurs(s, word)
  {
    if word <= s {
      assert OccursAt(s, word, 0);
    } else if s != "" {
      ContainsExactly(s[1..], word);
      if i: nat :| OccursAt(s[1..], word, i) {
        assert OccursAt(s, word, i + 1);
      }
      if i: nat :| OccursAt(s, word, i) {
        assert i > 0 ==> OccursAt(s[1..], word, i - 1);
      }
    }
  }

  lemma {:induction false} StartsExactly(s: string, word: string)
    requires SmallLetters(word)
    ensures StartsWith(s, word) <==> NamedAt(s, word, 0)
  {
    if word != "" && s != "" {
      StartsExactly(s[1..], word[1..]);
      if NamedAt(s, word, 0) {
        assert forall k :: 0 <= k < |word| - 1 ==> s[1..][k] == s[0 + (k + 1)] && word[1..][k] == word[k + 1];
      }
      if NamedAt(s[1..], word[1..], 0) {
        assert forall k :: 0 < k < |word| ==> s[k] == s[1..][0 + (k - 1)] && word[k] == word[1..][k - 1];
      }
    }
  }

  lemma NamedLater(s: string, word: string)
    requires s != ""
    ensures Named(s, word) <==> NamedAt(s, word, 0) || Named(s[1..], word)
  {
    if i: nat :| NamedAt(s[1..], word, i) {
      assert NamedAt(s, word, i + 1);
    }
    if i: nat :| NamedAt(s, word, i) {
      assert i > 0 ==> NamedAt(s[1..], word, i - 1);
    }
  }

  lemma {:induction false} MentionsExactly(s: string, word: string)
    requires SmallLetters(word)
    ensures Mentions(s, word) <==> Named(s, word)
  {
    StartsExactly(s, word);
    if s != "" {
      NamedLater(s, word);
      MentionsExactly(s[1..], word);
    } else if i: nat :| NamedAt(s, word, i) {
      assert i == 0;
    }
  }

  lemma NotAcross(a: string, b: string, word: string, i: nat)
    requires '\n' !in word
    ensures i <= |a| < i + |word| ==> !OccursAt(a + "\n" + b, word, i)
  {
    var all := a + "\n" + b;
    if i <= |a| < i + |word| <= |all| {
      assert all[i + (|a| - i)] == '\n' && word[|a| - i] in word;
    }
  }

  /** A phrase without line breaks is in joined lines exactly if it is in one of them. */
  lemma JoinedOccurs(a: string, b: string, word: string)
    requires word != "" && '\n' !in word
    ensures Occurs(a + "\n" + b, word) <==> Occurs(a, word) || Occurs(b, word)
  {
    var all := a + "\n" + b;
    if i: nat :| OccursAt(all, word, i) {
      NotAcross(a, b, word, i);
      assert i + |word| <= |a| ==> OccursAt(a, word, i);
      assert i > |a| ==> OccursAt(b, word, i - |a| - 1);
    }
    if i: nat :| OccursAt(a, word, i) {
      assert OccursAt(all, word, i);
    }
    if i: nat :| OccursAt(b, word, i) {
      assert OccursAt(all, word, i + |a| + 1);
    }
  }

  lemma JoinedContains(a: string, b: string, word: string)
    requires word != "" && '\n' !in word
    ensures Contains(a + "\n" + b, word) <==> Contains(a, word) || Contains(b, word)
  {
    JoinedOccurs(a, b, word);
    ContainsExactly(a + "\n" + b, word);
    ContainsExactly(a, word);
    ContainsExactly(b, word);
  }

  function TextItem(text: string): Json {
    Obj(map["type" := Str("text"), "text" := Str(text)])
  }

  function TextItems(texts: seq<string>): seq<Json> {
    if texts == [] then [] else [TextItem(texts[0])] + TextItems(texts[1..])
  }

  /** The rendered error names the phrase exactly if one of its texts does. */
  lemma {:induction false} TextsContain(texts: seq<string>, word: string)
    requires word != "" && '\n' !in word
    ensures JoinTexts(TextItems(texts)).Some? && |TextItems(texts)| == |texts|
    ensures Contains(JoinTexts(TextItems(texts)).value, word) <==> exists i :: 0 <= i < |texts| && Contains(texts[i], word)
  {
    if texts != [] {
      var items, rest := TextItems(texts), TextItems(texts[1..]);
      TextsContain(texts[1..], word);
      assert items[0] == TextItem(texts[0]) && items[1..] == rest;
      assert Member(items[0].fields, "text") == Str(texts[0]);
      if |texts| > 1 {
        JoinedContains(texts[0], JoinTexts(rest).value, word);
      }
      assert forall i :: 0 < i < |texts| ==> texts[i] == texts[1..][i - 1];
    }
  }

  /** A failed tool cannot be rendered exactly if an item of its content is no object; what
      is no list is rendered as nothing. */
  lemma {:induction false} RendersExactly(items: seq<Json>)
    ensures ErrorText(Arr(items)).None? <==> exists i :: 0 <= i < |items| && !items[i].Obj?
    ensures forall other: Json :: !other.Arr? ==> ErrorText(other) == Some("")
  {
    if items != [] {
      RendersExactly(items[1..]);
      assert ErrorText(Arr(items[1..])) == JoinTexts(items[1..]);
      assert forall i :: 0 < i < |items| ==> items[i] == items[1..][i - 1];
      assert forall i :: 0 <= i < |items| - 1 ==> items[1..][i] == items[i + 1];
    }
  }

  // ----- Answers --------------------------------------------------------------------------------

  /** What the server says of one call. */
  datatype Answer =
    | Gives(content: map<string, Json>)
    | Fails(texts: seq<string>)
    | Errs(code: int, message: string)

  function Payload(answer: Answer): Json
    requires !answer.Errs?
  {
    match answer
    case Gives(content) => Obj(map["structuredContent" := Obj(content), "isError" := Bool(false)])
    case Fails(texts) => Obj(map["content" := Arr(TextItems(texts)), "isError" := Bool(true)])
  }

  /** The JSON-RPC 2.0 response object (sections 5 and 5.1 of its specification). */
  function Respond(request: int, answer: Answer): Json {
    match answer
    case Errs(code, message) =>
      Obj(map["jsonrpc" := Str("2.0"), "id" := Num(request),
              "error" := Obj(map["code" := Num(code), "message" := Str(message)])])
    case _ => Obj(map["jsonrpc" := Str("2.0"), "id" := Num(request), "result" := Payload(answer)])
  }

  /** Notifications, and responses to other requests. */
  ghost predicate ForOthers(messages: seq<Option<Json>>, request: int) {
    forall i :: 0 <= i < |messages| ==>
      messages[i].Some? && messages[i].value.Obj? && !Answers(Member(messages[i].value.fields, "id"), request)
  }

  lemma {:induction false} StreamSkips(before: seq<Option<Json>>, rest: seq<Option<Json>>, request: int)
    requires ForOthers(before, request)
    ensures Stream(before + rest, request) == Stream(rest, request)
  {
    if before == [] {
      assert before + rest == rest;
    } else {
      assert (before + rest)[1..] == before[1..] + rest && (before + rest)[0] == before[0];
      StreamSkips(before[1..], rest, request);
    }
  }

  /** The codes that are sent before a tool runs. */
  predicate RejectsBefore(code: int) {
    code == -32700 || -32602 <= code <= -32600
  }

  function Meaning(answer: Answer): Rpc {
    match answer
    case Errs(code, message) => if message == "Unauthorized" then Failed(Unauthorized) else RpcFailed(RejectsBefore(code))
    case _ => Result(Payload(answer))
  }

  /** One response object is read as what it says, and by nobody else. */
  lemma ResponseRead(request: int, answer: Answer, other: int)
    ensures Message(Respond(request, answer), request) == Some(Meaning(answer))
    ensures other != request ==> Message(Respond(request, answer), other) == None
  {
    var fields := Respond(request, answer).fields;
    assert Member(fields, "id") == Num(request);
    match answer
    case Errs(code, message) =>
      var error := Obj(map["code" := Num(code), "message" := Str(message)]);
      assert Member(fields, "error") == error;
      assert Member(error.fields, "code") == Num(code) && Member(error.fields, "message") == Str(message);
    case _ =>
      assert Member(fields, "error") == Null && Member(fields, "result") == Payload(answer);
  }

  /** A response is read whatever comes for others before it and whatever follows. */
  lemma ResponseFound(before: seq<Option<Json>>, request: int, answer: Answer, after: seq<Option<Json>>, raw: Option<Json>,
      status: int)
    requires ForOthers(before, request) && status < 400
    ensures Receive(Replied(status, Body(before + [Some(Respond(request, answer))] + after, raw)), request) == Meaning(answer)
  {
    var reply := [Some(Respond(request, answer))];
    assert before + reply + after == before + (reply + after);
    StreamSkips(before, reply + after, request);
    assert (reply + after)[0] == reply[0];
    ResponseRead(request, answer, request);
  }

  /** Without a response for the request the reply is malformed. */
  lemma NothingFound(before: seq<Option<Json>>, request: int, raw: Option<Json>, status: int)
    requires ForOthers(before, request) && status < 400
    ensures Receive(Replied(status, Body(before, raw)), request) == Failed(Malformed)
  {
    assert before + [] == before;
    StreamSkips(before, [], request);
  }

  lemma PayloadRead(answer: Answer)
    requires !answer.Errs?
    ensures answer.Gives? ==> ReadResult(Payload(answer)) == Value(Obj(answer.content))
    ensures answer.Fails? ==>
              var text := JoinTexts(TextItems(answer.texts));
              text.Some? && ReadResult(Payload(answer)) == ToolFailed(text.value)
  {
    var fields := Payload(answer).fields;
    match answer
    case Gives(content) =>
      assert Member(fields, "isError") == Bool(false) && Member(fields, "structuredContent") == Obj(content);
    case Fails(texts) =>
      assert Member(fields, "isError") == Bool(true) && Member(fields, "content") == Arr(TextItems(texts));
      TextsContain(texts, "x");
  }

  // ----- Any reply ----------------------------------------------------------------------------------

  /** An id counts as the request's number, and, as in Python, true as 1 and false as 0. */
  lemma AnswersExactly(id: Json, request: int)
    ensures Answers(id, request) <==>
            id == Num(request) || (request == 1 && id == Bool(true)) || (request == 0 && id == Bool(false))
  {
  }

  ghost predicate Skipped(m: Option<Json>, request: int) {
    m.Some? && m.value.Obj? && !Answers(Member(m.value.fields, "id"), request)
  }

  /** What the first message that is not skipped says. */
  ghost predicate Says(m: Option<Json>, outcome: Rpc) {
    if m.None? || !m.value.Obj? then outcome == Failed(Malformed)
    else
      var f := m.value.fields;
      if "error" !in f || f["error"] == Null then
        outcome == if "result" in f && f["result"].Obj? then Result(f["result"]) else Failed(Malformed)
      else if !f["error"].Obj? then outcome == Failed(Malformed)
      else
        var e := f["error"].fields;
        if "message" in e && e["message"] == Str("Unauthorized") then outcome == Failed(Unauthorized)
        else if "code" in e && (e["code"].Arr? || e["code"].Obj?) then outcome == Crashed
        else outcome == RpcFailed("code" in e && e["code"].Num? && RejectsBefore(e["code"].n))
  }

  /** Message `k` is the first that is not for somebody else. */
  ghost predicate Decides(messages: seq<Option<Json>>, request: int, k: nat) {
    k < |messages| && !Skipped(messages[k], request) && forall i :: 0 <= i < k ==> Skipped(messages[i], request)
  }

  /** Of any stream the first message that is not for somebody else is read, and nothing
      after it; without one the stream is malformed. */
  lemma {:induction false} StreamExactly(messages: seq<Option<Json>>, request: int)
    ensures forall k: nat :: Decides(messages, request, k) ==> Says(messages[k], Stream(messages, request))
    ensures (forall i :: 0 <= i < |messages| ==> Skipped(messages[i], request)) ==> Stream(messages, request) == Failed(Malformed)
  {
    if messages != [] {
      var rest := messages[1..];
      StreamExactly(rest, request);
      assert forall i :: 0 < i < |messages| ==> messages[i] == rest[i - 1];
      assert forall i :: 0 <= i < |rest| ==> rest[i] == messages[i + 1];
      forall k: nat | Decides(messages, request, k)
        ensures Says(messages[k], Stream(messages, request))
      {
        if k > 0 {
          assert Decides(rest, request, k - 1);
        }
      }
    }
  }

  /** A result is a value exactly if it is no error and has structured content; it cannot be
      read if it has none, or if it is an error with an item that is no object. */
  lemma ResultExactly(fields: map<string, Json>)
    ensures var failed, reading := "isError" in fields && fields["isError"] == Bool(true), ReadResult(Obj(fields));
            && (forall value :: reading == Value(value) <==>
                  !failed && "structuredContent" in fields && fields["structuredContent"] == value && value.Obj?)
            && (reading.ToolFailed? <==>
                  failed && ("content" in fields && fields["content"].Arr? ==>
                               forall i :: 0 <= i < |fields["content"].items| ==> fields["content"].items[i].Obj?))
  {
    if "content" in fields && fields["content"].Arr? {
      RendersExactly(fields["content"].items);
    } else {
      RendersExactly([]);
    }
  }

  // ----- What the caller is told ------------------------------------------------------------------

  /** A mutation may have run although the server answers with an error: its tool crashed, or
      the error is none of those sent before anything runs. */
  ghost predicate MayHaveRun(answer: Answer) {
    match answer
    case Gives(_) => true
    case Fails(texts) => exists i :: 0 <= i < |texts| && Contains(texts[i], "Error calling tool")
    case Errs(code, _) => !RejectsBefore(code)
  }

  /** From the server's words to the caller's: whatever else the stream carries, the content
      that the server gives is returned; an authentication error is reported as one; and any
      other error of a mutation is reported as unknown exactly if the tool may have run. */
  lemma AnswerReported(mutation: bool, before: seq<Option<Json>>, request: int, answer: Answer, after: seq<Option<Json>>,
      raw: Option<Json>, status: int, report: Report)
    requires ForOthers(before, request) && status < 400
    requires Said(mutation, Receive(Replied(status, Body(before + [Some(Respond(request, answer))] + after, raw)), request), report)
    ensures report ==
            if answer.Gives? then Returned(Obj(answer.content))
            else if answer.Errs? && answer.message == "Unauthorized" then Raised(Unauthorized)
            else if mutation && MayHaveRun(answer) then Raised(OutcomeUnknown)
            else Raised(ToolError)
  {
    ResponseFound(before, request, answer, after, raw, status);
    if !answer.Errs? {
      PayloadRead(answer);
    }
    if answer.Fails? {
      TextsContain(answer.texts, "Error calling tool");
    }
  }

  /** A status alone: only 400 and 404 end the session, and nothing that went wrong behind
      the server's door is denied for a mutation. */
  lemma StatusReported(mutation: bool, status: int, body: Body, request: int, report: Report)
    requires status >= 400
    requires Said(mutation, Receive(Replied(status, body), request), report)
    ensures Receive(Replied(status, body), request).SessionInvalid? <==> status in {400, 404}
    ensures status in {401, 403} ==> report == Raised(Unauthorized)
    ensures status !in {400, 401, 403, 404} ==> report == Raised(if mutation then OutcomeUnknown else Unavailable)
  {
  }

  // ----- Session rejections ---------------------------------------------------------------------------

  /** The rejection that the MCP SDK sends before it dispatches anything. */
  function Rejection(message: string): Json {
    Obj(map["jsonrpc" := Str("2.0"), "id" := Null,
            "error" := Obj(map["code" := Num(-32600), "message" := Str(message)])])
  }

  /** It is recognised exactly by the word "session" in its message, in any spelling. */
  lemma RejectionRead(message: string, messages: seq<Option<Json>>, request: int, status: int)
    requires status in {400, 404}
    ensures Receive(Replied(status, Body(messages, Some(Rejection(message)))), request) ==
            SessionInvalid(Named(message, "session"))
  {
    var fields := Rejection(message).fields;
    var error := Obj(map["code" := Num(-32600), "message" := Str(message)]);
    assert Member(fields, "jsonrpc") == Str("2.0") && "id" in fields && fields["id"] == Null;
    assert Member(fields, "error") == error;
    assert Member(error.fields, "code") == Num(-32600) && Member(error.fields, "message") == Str(message);
    MentionsExactly(message, "session");
  }

  /** The members by which a rejection is recognised, in whatever else it carries. */
  ghost predicate IsRejection(value: Json) {
    && value.Obj? && var f := value.fields;
    && "jsonrpc" in f && f["jsonrpc"] == Str("2.0") && "id" in f && f["id"] == Null
    && "error" in f && f["error"].Obj? && var e := f["error"].fields;
    && "code" in e && e["code"] == Num(-32600) && "message" in e && e["message"].Str? && Named(e["message"].s, "session")
  }

  /** Nothing else proves that the session was rejected before anything ran. */
  lemma DefinitiveExactly(body: Body, request: int, status: int)
    requires status in {400, 404}
    ensures Receive(Replied(status, body), request) == SessionInvalid(body.raw.Some? && IsRejection(body.raw.value))
  {
    if body.raw.Some? && body.raw.value.Obj? {
      var fields := body.raw.value.fields;
      var error := Member(fields, "error");
      if error.Obj? && Member(error.fields, "message").Str? {
        MentionsExactly(Member(error.fields, "message").s, "session");
      }
    }
  }

  /** A response to a request proves nothing about the session, nor does a body that is no JSON. */
  lemma ResponseIsNoRejection(request: int, answer: Answer, messages: seq<Option<Json>>, status: int)
    requires status in {400, 404}
    ensures Receive(Replied(status, Body(messages, Some(Respond(request, answer)))), request) == SessionInvalid(false)
    ensures Receive(Replied(status, Body(messages, None)), request) == SessionInvalid(false)
  {
    assert Respond(request, answer).fields["id"] == Num(request);
  }
}
