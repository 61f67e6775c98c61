/** Sessions and the retry machine of the MCP client (integrations/hermes/core/client.py).
    What the network and the server do is an oracle: every call below holds for any. */
module McpClient {
  import opened Common

  datatype Json =
    | Null
    | Bool(b: bool)
    | Num(n: int)
    | Str(s: string)
    | Arr(items: seq<Json>)
    | Obj(fields: map<string, Json>)

  datatype Code = Timeout | Unavailable | Malformed | Unauthorized | Incompatible | OutcomeUnknown | ToolError

  /** How one request ended, as the exceptions of the source. `Crashed` is an exception
      that the client never catches. */
  datatype Rpc =
    | Result(value: Json)
    | SessionInvalid(definitive: bool)
    | RpcFailed(definitive: bool)
    | TransportFailed(presend: bool, timedOut: bool)
    | Failed(code: Code)
    | Crashed

  /** `messages` are the decoded payloads in order (None: not JSON); `raw` is the whole
      body, None when it is no JSON or too long. */
  datatype Body = Body(messages: seq<Option<Json>>, raw: Option<Json>)

  datatype Exchange =
    | NoTimeLeft
    | DeadlineHit
    | Transport(presend: bool, timedOut: bool)
    | Replied(status: int, body: Body)

  // ----- Reading a reply ----------------------------------------------------------------------

  const PRE_EXECUTION: set<Json> := {Num(-32700), Num(-32600), Num(-32601), Num(-32602)}

  /** A missing member reads as null. */
  function Member(fields: map<string, Json>, name: string): Json {
    if name in fields then fields[name] else Null
  }

  function Lower(c: char): char {
    if 'A' <= c <= 'Z' then c - 'A' + 'a' else c
  }

  predicate StartsWith(s: string, word: string) {
    if word == "" then true
    else s != "" && Lower(s[0]) == word[0] && StartsWith(s[1..], word[1..])
  }

  predicate Mentions(s: string, word: string) {
    StartsWith(s, word) || (s != "" && Mentions(s[1..], word))
  }

  /** The server's own rejection, sent before anything runs: code -32600, null id. */
  predicate SessionRejection(body: Option<Json>) {
    && body.Some? && body.value.Obj?
    && var fields := body.value.fields;
    && Member(fields, "jsonrpc") == Str("2.0")
    && "id" in fields && fields["id"] == Null
    && Member(fields, "error").Obj?
    && var error := Member(fields, "error").fields;
    && Member(error, "code") == Num(-32600)
    && Member(error, "message").Str? && Mentions(Member(error, "message").s, "session")
  }

  /** Python compares the id with `==`, so true answers request 1. */
  predicate Answers(id: Json, request: int) {
    match id
    case Num(n) => n == request
    case Bool(b) => (if b then 1 else 0) == request
    case _ => false
  }

  /** An object or an array as error code cannot be looked up in a set. */
  predicate Hashable(code: Json) {
    !code.Arr? && !code.Obj?
  }

  function Message(value: Json, request: int): Option<Rpc> {
    if !value.Obj? then Some(Failed(Malformed))
    else if !Answers(Member(value.fields, "id"), request) then None
    else
      var error := Member(value.fields, "error");
      if error == Null then
        var result := Member(value.fields, "result");
        if result.Obj? then Some(Result(result)) else Some(Failed(Malformed))
      else if !error.Obj? then Some(Failed(Malformed))
      else if Member(error.fields, "message") == Str("Unauthorized") then Some(Failed(Unauthorized))
      else if !Hashable(Member(error.fields, "code")) then Some(Crashed)
      else Some(RpcFailed(Member(error.fields, "code") in PRE_EXECUTION))
  }

  function Stream(messages: seq<Option<Json>>, request: int): Rpc {
    if messages == [] || messages[0].None? then Failed(Malformed)
    else
      match Message(messages[0].value, request)
      case Some(outcome) => outcome
      case None => Stream(messages[1..], request)
  }

  function Receive(x: Exchange, request: int): Rpc {
    match x
    case NoTimeLeft => Failed(Timeout)
    case DeadlineHit => Failed(Timeout)
    case Transport(presend, timedOut) => TransportFailed(presend, timedOut)
    case Replied(status, body) =>
      if status == 401 || status == 403 then Failed(Unauthorized)
      else if status == 400 || status == 404 then SessionInvalid(SessionRejection(body.raw))
      else if status >= 400 then Failed(Unavailable)
      else Stream(body.messages, request)
  }

  /** The text of a failed tool; None when an item is no object. Only strings are rendered. */
  function ErrorText(content: Json): Option<string> {
    match content
    case Arr(items) => JoinTexts(items)
    case _ => Some("")
  }

  function JoinTexts(items: seq<Json>): Option<string> {
    if items == [] then Some("")
    else if !items[0].Obj? then None
    else
      var text := match Member(items[0].fields, "text") case Str(s) => s case _ => "";
      match JoinTexts(items[1..])
      case None => None
      case Some(rest) => Some(if |items| == 1 then text else text + "\n" + rest)
  }

  predicate Contains(s: string, word: string) {
    word <= s || (s != "" && Contains(s[1..], word))
  }

  /** What a delivered result says: the value, a failed tool, or nothing readable. */
  datatype Reading = Value(value: Json) | ToolFailed(text: string) | Unreadable

  function ReadResult(result: Json): Reading
    requires result.Obj?
  {
    if Member(result.fields, "isError") == Bool(true) then
      match ErrorText(Member(result.fields, "content"))
      case Some(text) => ToolFailed(text)
      case None => Unreadable
    else
      var structured := Member(result.fields, "structuredContent");
      if structured.Obj? then Value(structured) else Unreadable
  }

  lemma {:induction false} StreamResults(messages: seq<Option<Json>>, request: int)
    ensures Stream(messages, request).Result? ==> Stream(messages, request).value.Obj?
    ensures Stream(messages, request).Failed? ==> Stream(messages, request).code in {Malformed, Unauthorized}
  {
    if messages != [] && messages[0].Some? && Message(messages[0].value, request).None? {
      StreamResults(messages[1..], request);
    }
  }

  // ----- One call ------------------------------------------------------------------------------

  datatype Session = Session(generation: nat, identity: string)

  /** What happens in one attempt: how opening a session would end (None: it succeeds under
      `identity`), whether the deadline is still open then, the exchange, whether the server
      ran the tool in it, and what another thread does meanwhile: drop the session while one
      is negotiated, or close the client. */
  datatype Attempt = Attempt(
    initFails: Option<Rpc>, identity: string, superseded: bool, inTime: bool, request: int, exchange: Exchange,
    ran: bool, closes: bool)

  /** Outcomes that prove the tool did not run. */
  predicate ProvesNotRun(x: Exchange, outcome: Rpc) {
    || x.NoTimeLeft?
    || outcome == SessionInvalid(true) || outcome == RpcFailed(true)
    || (outcome.TransportFailed? && outcome.presend)
    || outcome == Failed(Unauthorized)
  }

  /** A server that does not run what it rejects, on a network that delivers nothing before
      it connects. */
  predicate Honest(a: Attempt) {
    a.ran ==> !ProvesNotRun(a.exchange, Receive(a.exchange, a.request))
  }

  /** The reply never came, or says nothing about the tool. */
  predicate LostOrUnreadable(outcome: Rpc) {
    match outcome
    case Result(value) => value.Obj? && ReadResult(value) == Unreadable
    case SessionInvalid(definitive) => !definitive
    case RpcFailed(definitive) => !definitive
    case TransportFailed(presend, _) => !presend
    case Failed(code) => code == Timeout || code == Unavailable || code == Malformed
    case Crashed => false
  }

  datatype Report = Returned(value: Json) | Raised(code: Code) | Escaped

  function Runs(sent: seq<Attempt>): nat {
    if sent == [] then 0 else Runs(sent[..|sent| - 1]) + if sent[|sent| - 1].ran then 1 else 0
  }

  function OutcomeOf(a: Attempt): Rpc {
    Receive(a.exchange, a.request)
  }

  /** What the server rejected before running it counts for nothing. */
  lemma {:induction false} AllRejected(sent: seq<Attempt>)
    requires forall a :: a in sent ==> OutcomeOf(a) == SessionInvalid(true)
    ensures (forall a :: a in sent ==> Honest(a)) ==> Runs(sent) == 0
  {
    if sent != [] && forall a :: a in sent ==> Honest(a) {
      assert sent[|sent| - 1] in sent;
      AllRejected(sent[..|sent| - 1]);
    }
  }

  /** Reports that promise nothing happened. */
  predicate Harmless(report: Report) {
    report.Raised? && report.code in {Timeout, Unavailable, Malformed, Unauthorized, Incompatible}
  }

  lemma HarmlessVerdict(attempt: nat, a: Attempt)
    requires Honest(a)
    ensures var verdict := Judge(true, true, attempt, OutcomeOf(a));
            verdict.Some? && Harmless(verdict.value) ==> !a.ran
  {
    if a.exchange.Replied? {
      StreamResults(a.exchange.body.messages, a.request);
    }
  }

  /** A verdict that does not own up to a possible effect is given only when there is none. */
  lemma JudgedSafely(sent: seq<Attempt>, dispatched: bool, attempt: nat, a: Attempt, outcome: Rpc)
    requires dispatched ==> sent != [] && sent[|sent| - 1] == a && outcome == OutcomeOf(a)
    requires forall x :: x in (if dispatched then sent[..|sent| - 1] else sent) ==> OutcomeOf(x) == SessionInvalid(true)
    requires forall x :: x in sent ==> Honest(x)
    ensures Runs(sent) <= 1
    ensures var verdict := Judge(true, dispatched, attempt, outcome);
            verdict.Some? && Harmless(verdict.value) ==> Runs(sent) == 0
  {
    if dispatched {
      AllRejected(sent[..|sent| - 1]);
      assert a in sent;
      HarmlessVerdict(attempt, a);
    } else {
      AllRejected(sent);
    }
  }

  /** An error for this request whose code is an array or an object. */
  predicate HasUnhashableCode(value: Json, request: int) {
    && value.Obj? && Answers(Member(value.fields, "id"), request)
    && Member(value.fields, "error").Obj?
    && var error := Member(value.fields, "error").fields;
    && Member(error, "message") != Str("Unauthorized")
    && (Member(error, "code").Arr? || Member(error, "code").Obj?)
  }

  /** The only replies that escape the client: the first message for this request is such
      an error, and everything before it decodes and is for another request. */
  lemma {:induction false} EscapesExactlyWhen(messages: seq<Option<Json>>, request: int)
    ensures Stream(messages, request) == Crashed <==>
            exists k :: 0 <= k < |messages| && messages[k].Some? && HasUnhashableCode(messages[k].value, request) &&
              forall j :: 0 <= j < k ==> messages[j].Some? && Message(messages[j].value, request) == None
  {
    if messages != [] && messages[0].Some? && Message(messages[0].value, request) == None {
      var rest := messages[1..];
      EscapesExactlyWhen(rest, request);
      if Stream(rest, request) == Crashed {
        var k :| 0 <= k < |rest| && rest[k].Some? && HasUnhashableCode(rest[k].value, request) &&
                 forall j :: 0 <= j < k ==> rest[j].Some? && Message(rest[j].value, request) == None;
        assert messages[k + 1] == rest[k];
        assert forall j :: 0 < j < k + 1 ==> messages[j] == rest[j - 1];
      }
      if k :| 0 <= k < |messages| && messages[k].Some? && HasUnhashableCode(messages[k].value, request) &&
              forall j :: 0 <= j < k ==> messages[j].Some? && Message(messages[j].value, request) == None {
        assert k > 0 && rest[k - 1] == messages[k];
        assert forall j :: 0 <= j < k - 1 ==> rest[j] == messages[j + 1];
      }
    }
  }

  /** Such a reply: an error for request 1 whose code is an empty array. A mutation that
      gets it is not reported as unknown, although its reply says nothing about the tool. */
  lemma EmptyArrayCodeEscapes()
    ensures var reply := Obj(map["id" := Num(1), "error" := Obj(map["code" := Arr([])])]);
            && Receive(Replied(200, Body([Some(reply)], None)), 1) == Crashed
            && Judge(true, true, 0, Receive(Replied(200, Body([Some(reply)], None)), 1)) == Some(Escaped)
  {
    var error := Obj(map["code" := Arr([])]);
    var reply := Obj(map["id" := Num(1), "error" := error]);
    assert Member(reply.fields, "id") == Num(1) && Member(reply.fields, "error") == error;
    assert Member(error.fields, "code") == Arr([]) && Member(error.fields, "message") == Null;
    assert Message(reply, 1) == Some(Crashed);
    assert [Some(reply)][0] == Some(reply);
  }

  // ----- What a call guarantees ------------------------------------------------------------------

  function LastOutcome(sent: seq<Attempt>): Rpc
    requires sent != []
  {
    OutcomeOf(sent[|sent| - 1])
  }

  ghost predicate AllHonest(attempts: seq<Attempt>) {
    forall a :: a in attempts ==> Honest(a)
  }

  /** The attempts that reached the request, in order, out of the two. */
  predicate SentFrom(attempts: seq<Attempt>, sent: seq<Attempt>)
    requires |attempts| == 2
  {
    sent == [] || sent == [attempts[0]] || sent == [attempts[1]] || sent == attempts
  }

  /** A mutation is sent again only after a proven rejection, runs at most once, and is
      reported as unknown whenever its last reply is lost or unreadable. */
  ghost predicate MutationSafe(attempts: seq<Attempt>, sent: seq<Attempt>, report: Report) {
    && (|sent| >= 2 ==> OutcomeOf(sent[0]) == SessionInvalid(true))
    && (sent != [] && LostOrUnreadable(LastOutcome(sent)) ==> report == Raised(OutcomeUnknown))
    && (AllHonest(attempts) ==> Runs(sent) <= 1 && (Harmless(report) ==> Runs(sent) == 0))
  }

  /** What the caller is told when the last request ended that way. A request that may be
      sent again says nothing by itself. */
  ghost predicate Said(mutation: bool, last: Rpc, report: Report) {
    match last
    case Result(value) =>
      value.Obj? ==> (
        match ReadResult(value)
        case Value(v) => report == Returned(v)
        case ToolFailed(text) =>
          report == Raised(if mutation && Contains(text, "Error calling tool") then OutcomeUnknown else ToolError)
        case Unreadable => report == Raised(if mutation then OutcomeUnknown else Malformed))
    case RpcFailed(definitive) => report == Raised(if mutation && !definitive then OutcomeUnknown else ToolError)
    case Failed(Unauthorized) => report == Raised(Unauthorized)
    case Failed(code) => report == Raised(if mutation && code in {Timeout, Unavailable, Malformed} then OutcomeUnknown else code)
    case TransportFailed(presend, timedOut) =>
      mutation ==> report == Raised(if !presend then OutcomeUnknown else if timedOut then Timeout else Unavailable)
    case SessionInvalid(definitive) => mutation && !definitive ==> report == Raised(OutcomeUnknown)
    case Crashed => report == Escaped
  }

  /** There is no third attempt. */
  ghost predicate SaidTwice(mutation: bool, last: Rpc, report: Report) {
    && (last.TransportFailed? && !mutation ==> report == Raised(if last.timedOut then Timeout else Unavailable))
    && (last.SessionInvalid? && (last.definitive || !mutation) ==> report == Raised(Unavailable))
  }

  /** What a failed negotiation is reported as, when it is reported. */
  ghost predicate Refused(outcome: Rpc, report: Report) {
    match outcome
    case Failed(code) => report == Raised(code)
    case RpcFailed(_) => report == Raised(ToolError)
    case TransportFailed(_, timedOut) => report == Raised(if timedOut then Timeout else Unavailable)
    case SessionInvalid(_) => report == Raised(Unavailable)
    case Crashed => report == Escaped
    case Result(_) => false
  }

  /** How an attempt ends before its request, if it does: no session, or no time left. */
  function Unsent(a: Attempt, hasSession: bool, closing: bool): Option<Rpc> {
    if !hasSession && closing then Some(Failed(Unavailable))
    else if !hasSession && a.initFails.Some? then a.initFails
    else if !hasSession && a.superseded then Some(Failed(Unavailable))
    else if a.inTime then None
    else Some(Failed(Timeout))
  }

  /** Another attempt is made: the session was rejected, or a read lost its connection. A
      mutation that was sent must have been rejected for certain. */
  predicate GoesOn(mutation: bool, dispatched: bool, outcome: Rpc) {
    match outcome
    case SessionInvalid(definitive) => mutation && dispatched ==> definitive
    case TransportFailed(_, _) => !mutation
    case _ => false
  }

  /** What the caller is told when attempt `i` is the last. */
  ghost predicate Tells(mutation: bool, i: nat, a: Attempt, unsent: Option<Rpc>, report: Report) {
    if unsent.Some? then Refused(unsent.value, report)
    else Said(mutation, OutcomeOf(a), report) && (i > 0 ==> SaidTwice(mutation, OutcomeOf(a), report))
  }

  /** The first attempt decides, or the second, which needs a new session. */
  ghost predicate Concludes(mutation: bool, attempts: seq<Attempt>, hasSession: bool, sent: seq<Attempt>, report: Report)
    requires |attempts| == 2
  {
    var a0, a1 := attempts[0], attempts[1];
    var u0, u1 := Unsent(a0, hasSession, false), Unsent(a1, false, a0.closes);
    var first, second := if u0.None? then [a0] else [], if u1.None? then [a1] else [];
    if GoesOn(mutation, u0.None?, if u0.None? then OutcomeOf(a0) else u0.value)
    then sent == first + second && Tells(mutation, 1, a1, u1, report)
    else sent == first && Tells(mutation, 0, a0, u0, report)
  }

  /** What is answered is what the last reply said; only a crash escapes. */
  ghost predicate Truthful(mutation: bool, attempts: seq<Attempt>, sent: seq<Attempt>, report: Report) {
    && (sent != [] ==> Said(mutation, LastOutcome(sent), report))
    && (report.Returned? ==>
          && sent != [] && LastOutcome(sent).Result? && LastOutcome(sent).value.Obj?
          && ReadResult(LastOutcome(sent).value) == Value(report.value))
    && (sent != [] && LastOutcome(sent) == Crashed ==> report == Escaped)
    && (report == Escaped ==>
          (sent != [] && LastOutcome(sent) == Crashed) || exists a :: a in attempts && a.initFails == Some(Crashed))
  }

  /** Between attempts: every request so far may be sent again. */
  ghost predicate MayRetry(mutation: bool, sent: seq<Attempt>) {
    forall a :: a in sent ==>
      if mutation then OutcomeOf(a) == SessionInvalid(true) else OutcomeOf(a).SessionInvalid? || OutcomeOf(a).TransportFailed?
  }

  lemma Retries(mutation: bool, sent: seq<Attempt>, a: Attempt, attempt: nat)
    requires MayRetry(mutation, sent) && Judge(mutation, true, attempt, OutcomeOf(a)).None?
    ensures MayRetry(mutation, sent + [a])
  {
  }

  lemma ConcludesSafely(attempts: seq<Attempt>, sent: seq<Attempt>, dispatched: bool, attempt: nat, a: Attempt, outcome: Rpc)
    requires |sent| <= 2 && a in attempts && forall x :: x in sent ==> x in attempts
    requires dispatched ==> sent != [] && sent[|sent| - 1] == a && outcome == OutcomeOf(a)
    requires MayRetry(true, if dispatched then sent[..|sent| - 1] else sent)
    requires Judge(true, dispatched, attempt, outcome).Some?
    ensures MutationSafe(attempts, sent, Judge(true, dispatched, attempt, outcome).value)
  {
    var before := if dispatched then sent[..|sent| - 1] else sent;
    if |sent| >= 2 {
      assert before[0] in before;
    }
    if sent != [] && !dispatched {
      assert sent[|sent| - 1] in before;
    }
    if AllHonest(attempts) {
      JudgedSafely(sent, dispatched, attempt, a, outcome);
    }
  }

  /** What one attempt adds: a verdict that keeps the promises, or leave to go on. */
  lemma AttemptEnds(mutation: bool, attempts: seq<Attempt>, before: seq<Attempt>, dispatched: bool, i: nat, a: Attempt,
      outcome: Rpc)
    requires i < 2 && |before| <= i && a in attempts && (forall x :: x in before ==> x in attempts)
    requires MayRetry(mutation, before)
    requires if dispatched then outcome == OutcomeOf(a)
             else !outcome.Result? &&
                  (outcome == Failed(Timeout) || outcome == Failed(Unavailable) || a.initFails == Some(outcome))
    ensures var sent := if dispatched then before + [a] else before;
            var verdict := Judge(mutation, dispatched, i, outcome);
            && (verdict.None? ==> i == 0 && MayRetry(mutation, sent))
            && (verdict.Some? ==> Truthful(mutation, attempts, sent, verdict.value))
            && (verdict.Some? && mutation ==> MutationSafe(attempts, sent, verdict.value))
  {
    var sent := if dispatched then before + [a] else before;
    assert before == if dispatched then sent[..|sent| - 1] else sent;
    if Judge(mutation, dispatched, i, outcome).Some? {
      if mutation {
        ConcludesSafely(attempts, sent, dispatched, i, a, outcome);
      }
    } else if dispatched {
      Retries(mutation, before, a, i);
    }
  }

  class Client {
    var generation: nat
    var session: Option<Session>
    var closing: bool
    var inFlight: nat
    var httpClosed: bool

    constructor ()
      ensures Valid() && generation == 0 && session == None && !closing && inFlight == 0 && !httpClosed
    {
      generation, session, closing, inFlight, httpClosed := 0, None, false, 0, false;
    }

    /** A stored session belongs to the current generation; the connection pool is closed
        exactly when no call is in flight and none can start. */
    ghost predicate Valid()
      reads this
    {
      && (session.Some? ==> session.value.generation == generation)
      && (httpClosed <==> closing && inFlight == 0)
    }

    method Invalidate(g: nat)
      requires Valid()
      modifies this`generation, this`session
      ensures Valid()
      ensures generation == (if old(generation) == g then g + 1 else old(generation))
      ensures session == (if old(generation) == g then None else old(session))
    {
      if generation == g {
        generation := generation + 1;
        session := None;
      }
    }

    /** Negotiate only when there is no session; store it only for the generation it was
        started in. */
    method EnsureSession(a: Attempt) returns (s: Option<Session>, error: Rpc)
      requires Valid()
      modifies this`generation, this`session
      ensures Valid()
      ensures s.Some? ==> session == s && (old(session).Some? ==> s == old(session))
      ensures var overtaken := old(session).None? && !closing && a.initFails.None? && a.superseded;
              && generation == old(generation) + (if overtaken then 1 else 0)
              && (overtaken ==> s.None? && error == Failed(Unavailable))
      ensures s.None? ==> session == None && old(session) == None
      ensures s.None? ==> error == Failed(Unavailable) || a.initFails == Some(error)
      ensures s.None? && !closing && !a.superseded ==> a.initFails == Some(error)
      ensures s.None? <==> old(session).None? && (closing || a.initFails.Some? || a.superseded)
      ensures s.None? && !closing && a.initFails.Some? ==> error == a.initFails.value
      ensures s.None? && closing ==> error == Failed(Unavailable)
      ensures s.Some? && old(session).None? ==> s == Some(Session(old(generation), a.identity))
    {
      error := Crashed;
      if session.Some? {
        return session, error;
      }
      if closing {
        return None, Failed(Unavailable);
      }
      var started := generation;
      if a.initFails.Some? {
        return None, a.initFails.value;
      }
      if a.superseded {
        // Another thread drops the session of this generation.
        Invalidate(generation);
      }
      if closing || started != generation {
        return None, Failed(Unavailable);
      }
      session := Some(Session(started, a.identity));
      s := session;
    }

    /** One attempt: a session, the deadline, the request. */
    method TryOnce(a: Attempt) returns (dispatched: bool, outcome: Rpc)
      requires Valid() && (a.initFails.Some? ==> !a.initFails.value.Result?)
      requires inFlight > 0
      modifies this`generation, this`session, this`closing
      ensures Valid() && closing == (old(closing) || a.closes)
      ensures dispatched ==> outcome == OutcomeOf(a)
      ensures !dispatched ==> outcome == Failed(Timeout) || outcome == Failed(Unavailable) || a.initFails == Some(outcome)
      ensures !dispatched ==> !outcome.Result?
      ensures var unsent := Unsent(a, old(session).Some?, old(closing));
              dispatched == unsent.None? && (!dispatched ==> outcome == unsent.value)
      ensures outcome.SessionInvalid? || outcome.TransportFailed? ==> session.None?
      ensures dispatched && !outcome.SessionInvalid? && !outcome.TransportFailed? ==>
                session == if old(session).Some? then old(session) else Some(Session(old(generation), a.identity))
      ensures generation > old(generation) <==>
              session.None? &&
              (outcome.SessionInvalid? || outcome.TransportFailed? ||
               (a.superseded && old(session).None? && !old(closing) && a.initFails.None?))
    {
      var g := generation;
      var s, error := EnsureSession(a);
      dispatched, outcome := false, error;
      if s.Some? {
        outcome := Failed(Timeout);
        if a.inTime {
          dispatched, outcome := true, Receive(a.exchange, a.request);
        }
      }
      if a.closes {
        Close();
      }
      if outcome.SessionInvalid? || outcome.TransportFailed? {
        Invalidate(if s.Some? then s.value.generation else g);
      }
    }

    /** One attempt and its verdict; None is to try again. */
    method AttemptAndJudge(mutation: bool, attempts: seq<Attempt>, i: nat, sent0: seq<Attempt>)
      returns (verdict: Option<Report>, sent: seq<Attempt>)
      requires Valid() && inFlight > 0 && i < 2 == |attempts|
      requires attempts[i].initFails.Some? ==> !attempts[i].initFails.value.Result?
      requires |sent0| <= i && MayRetry(mutation, sent0) && forall a :: a in sent0 ==> a in attempts
      modifies this`generation, this`session, this`closing
      ensures Valid()
      ensures sent == sent0 || sent == sent0 + [attempts[i]]
      ensures closing == (old(closing) || attempts[i].closes)
      ensures var a, unsent := attempts[i], Unsent(attempts[i], old(session).Some?, old(closing));
              && sent == (if unsent.None? then sent0 + [a] else sent0)
              && (verdict.None? <==> i == 0 && GoesOn(mutation, unsent.None?, if unsent.None? then OutcomeOf(a) else unsent.value))
              && (verdict.Some? ==> Tells(mutation, i, a, unsent, verdict.value))
      ensures verdict.None? ==> i == 0 && session.None? && MayRetry(mutation, sent)
      ensures verdict.Some? ==> Truthful(mutation, attempts, sent, verdict.value)
      ensures verdict.Some? && mutation ==> MutationSafe(attempts, sent, verdict.value)
    {
      var a := attempts[i];
      assert a in attempts;
      var dispatched, outcome := TryOnce(a);
      sent := if dispatched then sent0 + [a] else sent0;
      AttemptEnds(mutation, attempts, sent0, dispatched, i, a, outcome);
      verdict := Judge(mutation, dispatched, i, outcome);
    }

    /** At most two attempts; the out-parameter `sent` lists those that reached the request. */
    method Call(mutation: bool, attempts: seq<Attempt>) returns (report: Report, sent: seq<Attempt>)
      requires Valid() && |attempts| == 2
      requires forall a :: a in attempts && a.initFails.Some? ==> !a.initFails.value.Result?
      modifies this
      ensures Valid() && inFlight == old(inFlight)
      ensures SentFrom(attempts, sent)
      ensures if old(closing) then sent == [] && report == Raised(Unavailable)
              else Concludes(mutation, attempts, old(session).Some?, sent, report)
      ensures Truthful(mutation, attempts, sent, report)
      ensures mutation ==> MutationSafe(attempts, sent, report)
    {
      sent := [];
      if closing {
        return Raised(Unavailable), sent;
      }
      inFlight := inFlight + 1;
      var verdict, i := None, 0;
      while verdict.None?
        invariant Valid() && inFlight == old(inFlight) + 1
        invariant verdict.None? && i == 0 ==> sent == [] && session == old(session) && !closing
        invariant verdict.None? && i == 1 ==>
                    var unsent := Unsent(attempts[0], old(session).Some?, false);
                    && session.None? && closing == attempts[0].closes
                    && sent == (if unsent.None? then [attempts[0]] else [])
                    && GoesOn(mutation, unsent.None?, if unsent.None? then OutcomeOf(attempts[0]) else unsent.value)
        invariant verdict.Some? ==> Concludes(mutation, attempts, old(session).Some?, sent, verdict.value)
        invariant verdict.None? ==> i <= 1 && |sent| <= i && (sent == [] || sent == [attempts[0]]) && MayRetry(mutation, sent)
        invariant verdict.Some? ==> SentFrom(attempts, sent) && Truthful(mutation, attempts, sent, verdict.value)
        invariant verdict.Some? && mutation ==> MutationSafe(attempts, sent, verdict.value)
        decreases 2 - i, verdict.None?
      {
        verdict, sent := AttemptAndJudge(mutation, attempts, i, sent);
        i := i + 1;
      }
      report := verdict.value;
      inFlight := inFlight - 1;
      if closing && inFlight == 0 {
        httpClosed := true;
      }
    }

    /** End at once when idle; otherwise the last call in flight closes the pool. */
    method Close()
      requires Valid()
      modifies this`closing, (if inFlight == 0 then {this} else {})`httpClosed
      ensures Valid() && closing
    {
      if closing {
        return;
      }
      closing := true;
      if inFlight > 0 {
        return;
      }
      httpClosed := true;
    }
  }

  /** The exception ladder of one attempt: a report, or None to try again. */
  function Judge(mutation: bool, dispatched: bool, attempt: nat, outcome: Rpc): Option<Report> {
    match outcome
    case Result(value) =>
      if !value.Obj? then Some(Raised(if mutation && dispatched then OutcomeUnknown else Malformed))
      else (
        match ReadResult(value)
        case Value(v) => Some(Returned(v))
        case ToolFailed(text) =>
          Some(Raised(if mutation && Contains(text, "Error calling tool") then OutcomeUnknown else ToolError))
        case Unreadable => Some(Raised(if mutation && dispatched then OutcomeUnknown else Malformed)))
    case SessionInvalid(definitive) =>
      if mutation && dispatched && !definitive then Some(Raised(OutcomeUnknown))
      else if attempt > 0 then Some(Raised(Unavailable))
      else None
    case RpcFailed(definitive) =>
      Some(Raised(if mutation && dispatched && !definitive then OutcomeUnknown else ToolError))
    case TransportFailed(presend, timedOut) =>
      if mutation && dispatched && !presend then Some(Raised(OutcomeUnknown))
      else if mutation || attempt > 0 then Some(Raised(if timedOut then Timeout else Unavailable))
      else None
    case Failed(code) =>
      if mutation && dispatched && (code == Timeout || code == Unavailable || code == Malformed)
      then Some(Raised(OutcomeUnknown))
      else Some(Raised(code))
    case Crashed => Some(Escaped)
  }
}
