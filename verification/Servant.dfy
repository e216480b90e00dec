/** The thread that serves one connection (mammut-server.cpp): it receives requests,
    hands each to the module its identifier names and sends back the result or, for any
    runtime_error on the way, an exception with an empty identifier. */
module Servant {
  import opened Framing
  import opened Options

  // ---------------------------------------------------------------------
  // Identifiers

  const DOT: Byte := 46

  function Ascii(s: string): seq<Byte> {
    seq(|s|, i requires 0 <= i < |s| => s[i] as int % 256)
  }

  ghost predicate Free(s: seq<Byte>, b: Byte) {
    forall i :: 0 <= i < |s| ==> s[i] != b
  }

  /** Up to the first b, or everything. */
  function Until(s: seq<Byte>, b: Byte): (p: seq<Byte>)
    ensures Free(p, b) && p <= s && (|p| < |s| ==> s[|p|] == b)
  {
    if s == [] || s[0] == b then [] else [s[0]] + Until(s[1..], b)
  }

  /** What is read by getline after getline: the parts between the dots, where nothing
      is no part. */
  function Tokens(s: seq<Byte>): seq<seq<Byte>>
    decreases |s|
  {
    if s == [] then []
    else
      var p := Until(s, DOT);
      if |p| == |s| then [p] else [p] + Tokens(s[|p| + 1..])
  }

  lemma {:induction false} UntilFound(s: seq<Byte>, p: seq<Byte>, b: Byte)
    requires p <= s && Free(p, b) && (|p| < |s| ==> s[|p|] == b)
    ensures Until(s, b) == p
  {
    if p != [] {
      assert p[0] == s[0];
      UntilFound(s[1..], p[1..], b);
      assert p == [p[0]] + p[1..];
    }
  }

  const MAMMUT: seq<Byte> := Ascii("mammut")

  /** getModuleNameFromMessageId; None for its exception. */
  function ModuleName(id: seq<Byte>): Option<seq<Byte>> {
    var tokens := Tokens(id);
    if |tokens| != 3 || tokens[0] != MAMMUT then None else Some(tokens[1])
  }

  lemma TokensStep(p: seq<Byte>, rest: seq<Byte>)
    requires Free(p, DOT)
    ensures Tokens(p + [DOT] + rest) == [p] + Tokens(rest)
  {
    var s := p + [DOT] + rest;
    UntilFound(s, p, DOT);
    assert s[|p| + 1..] == rest;
  }

  lemma TokensLast(p: seq<Byte>)
    requires Free(p, DOT)
    ensures Tokens(p) == if p == [] then [] else [p]
  {
    UntilFound(p, p, DOT);
  }

  /** split. */
  method Split(s: seq<Byte>) returns (elems: seq<seq<Byte>>)
    ensures elems == Tokens(s)
  {
    hide Tokens, Until;
    elems := [];
    var at := 0;
    assert s[0..] == s;
    while at < |s|
      invariant 0 <= at <= |s|
      invariant elems + Tokens(s[at..]) == Tokens(s)
    {
      var start := at;
      while at < |s| && s[at] != DOT
        invariant start <= at <= |s| && Free(s[start..at], DOT)
      {
        assert s[start..at + 1] == s[start..at] + [s[at]];
        at := at + 1;
      }
      var item := s[start..at];
      ghost var read := elems;
      elems := elems + [item];
      if at < |s| {
        assert s[start..] == item + [DOT] + s[at + 1..];
        TokensStep(item, s[at + 1..]);
        assert read + ([item] + Tokens(s[at + 1..])) == elems + Tokens(s[at + 1..]);
        at := at + 1;
      } else {
        assert s[start..] == item;
        TokensLast(item);
        NoTokens(s[at..]);
      }
    }
    NoTokens(s[at..]);
  }

  /** The last part of an identifier: a name, or with one dot behind it. */
  ghost predicate Ending(last: seq<Byte>, t: seq<Byte>) {
    Free(t, DOT) && (last == t + [DOT] || (last == t && t != []))
  }

  lemma NoTokens(s: seq<Byte>)
    ensures Tokens(s) == [] <==> s == []
  {
  }

  lemma EndingInDot(t: seq<Byte>)
    ensures !Free(t + [DOT], DOT)
  {
    assert (t + [DOT])[|t|] == DOT;
  }

  lemma OneToken(s: seq<Byte>, t: seq<Byte>)
    ensures Tokens(s) == [t] <==> Ending(s, t)
  {
    hide Tokens;
    var p := Until(s, DOT);
    if |p| < |s| {
      var rest := s[|p| + 1..];
      assert s == p + [DOT] + rest;
      TokensStep(p, rest);
      NoTokens(rest);
      assert Tokens(s) == [t] ==> Tokens(s)[1..] == [] && Tokens(s)[0] == t;
      assert Tokens(s)[1..] == Tokens(rest);
      if Ending(s, t) {
        assert s == t + [DOT];
        UntilFound(s, t, DOT);
      }
    } else {
      TokensLast(s);
      EndingInDot(t);
      assert [s] == [t] ==> [s][0] == t;
    }
  }

  /** The first token of several is what is in front of the first dot. */
  lemma FirstToken(s: seq<Byte>) returns (rest: seq<Byte>)
    requires |Tokens(s)| > 1
    ensures Free(Tokens(s)[0], DOT) && s == Tokens(s)[0] + [DOT] + rest && Tokens(rest) == Tokens(s)[1..]
  {
    var p := Until(s, DOT);
    rest := s[|p| + 1..];
  }

  /** An identifier that names a module: mammut.name.type, perhaps with one dot more
      behind the type, or two dots behind the name. */
  ghost predicate Names(id: seq<Byte>, name: seq<Byte>, last: seq<Byte>, t: seq<Byte>) {
    Free(name, DOT) && id == MAMMUT + [DOT] + (name + [DOT] + last) && Ending(last, t)
  }

  /** A module is found in an identifier exactly if the identifier is of that form. */
  lemma ModuleNameExactly(id: seq<Byte>, name: seq<Byte>)
    ensures ModuleName(id) == Some(name) <==> exists last, t :: Names(id, name, last, t)
  {
    hide Tokens, Ascii;
    if ModuleName(id) == Some(name) {
      var tokens := Tokens(id);
      var rest := FirstToken(id);
      var last := FirstToken(rest);
      assert Tokens(last) == [tokens[2]];
      OneToken(last, tokens[2]);
      assert Names(id, name, last, tokens[2]);
    }
    forall last, t | Names(id, name, last, t)
      ensures ModuleName(id) == Some(name)
    {
      MammutFree();
      TokensStep(MAMMUT, name + [DOT] + last);
      TokensStep(name, last);
      OneToken(last, t);
      assert Tokens(id) == [MAMMUT, name, t];
    }
  }

  lemma MammutFree()
    ensures Free(MAMMUT, DOT) && |MAMMUT| == 6
  {
    assert MAMMUT == [109, 97, 109, 109, 117, 116];
  }

  // ---------------------------------------------------------------------
  // The answer to a request

  /** What processMessage comes to: a reply, the result false, a runtime_error, or
      anything else that is thrown. */
  datatype Processed = Replied(reply: Message) | Refused | RuntimeError(what: seq<Byte>) | OtherError

  /** A module as a function of the number of the request on this connection and of the
      request, so that it may keep any state. */
  type Module = (nat, Message) -> Processed

  /** The activated modules; a module that could not be created may be there as NULL. */
  type Dispatcher = map<seq<Byte>, Option<Module>>

  datatype Answer = Result(reply: Message) | Exception(what: seq<Byte>) | Fatal

  /** The try block between receiving and sending. */
  function AnswerTo(d: Dispatcher, k: nat, m: Message): Answer {
    match ModuleName(m.id)
    case None => Exception(Ascii("Wrong message id: ") + m.id)
    case Some(name) =>
      if name !in d || d[name].None? then Exception(Ascii("Server: Module ") + name + Ascii(" not activated."))
      else
        match d[name].value(k, m)
        case Replied(r) => Result(r)
        case Refused => Exception(Ascii("Server: Error while processing message ") + m.id + Ascii("."))
        case RuntimeError(what) => Exception(what)
        case OtherError => Fatal
  }

  /** what() is passed on as a C string. */
  function ExceptionMessage(what: seq<Byte>): Message {
    Message([], Until(what, 0))
  }

  /** The message that answers a request; none does after a fatal error. */
  function ReplyTo(d: Dispatcher, k: nat, m: Message): Message {
    match AnswerTo(d, k, m)
    case Result(r) => r
    case Exception(what) => ExceptionMessage(what)
    case Fatal => Message([], [])
  }

  const TRUNCATED: seq<Byte> := Ascii("Communicator: Truncated receive.")

  const WRITE_FAILED: seq<Byte> := Ascii("CommunicatorTcp: Write failed: ")

  const READ_FAILED: seq<Byte> := Ascii("CommunicatorTcp: Read failed: ")

  // ---------------------------------------------------------------------
  // The loop as a function

  /** A failing system call: how many bytes of the message got through before it, and
      the text of the error. */
  datatype Fault = Fault(after: nat, error: seq<Byte>)

  /** What fails in one round of the loop. */
  datatype Weather = Weather(read: Option<Fault>, reply: Option<Fault>, exception: Option<Fault>)

  const CALM := Weather(None, None, None)

  /** Weather of a round of a run; nothing fails after those that are listed. */
  function Now(weather: seq<Weather>): Weather {
    if weather == [] then CALM else weather[0]
  }

  function Later(weather: seq<Weather>): seq<Weather> {
    if weather == [] then [] else weather[1..]
  }

  datatype Cause =
    | Reply(request: Message)
    | Failure(request: Message)        // an exception before the reply was sent
    | FailedReply(request: Message)    // an exception since sending the reply failed
    | TruncatedRequest
    | FailedRead

  /** A frame that the servant began to send, and the fault that cut it. */
  datatype Sent = Sent(cause: Cause, message: Message, fault: Option<Fault>)

  function BytesOf(e: Sent): seq<Byte> {
    var f := Frame(e.message);
    if e.fault.None? || |f| <= e.fault.value.after then f else f[..e.fault.value.after]
  }

  function Bytes(log: seq<Sent>): seq<Byte> {
    if log == [] then [] else Bytes(log[..|log| - 1]) + BytesOf(log[|log| - 1])
  }

  datatype Flow = Continue | Return | Threw(cause: Cause, what: seq<Byte>) | ThrewOther

  /** A round up to the catch clauses: what has been sent, what is left of the stream,
      whether a request was received, and how it goes on. */
  datatype Tried = Tried(log: seq<Sent>, rest: seq<Byte>, received: nat, flow: Flow)

  /** What a receive that fails after some bytes leaves: it has not come to the end of a
      message. */
  function Unread(s: seq<Byte>, after: nat): (rest: seq<Byte>) {
    var r := Parse(s, []);
    var most := if r.outcome.Received? then |s| - |r.rest| - 1 else |s|;
    if after <= most then s[after..] else s[most..]
  }

  function Try(d: Dispatcher, w: Weather, k: nat, s: seq<Byte>): (t: Tried)
    ensures w.read.None? && !t.flow.Return? ==> |t.rest| < |s|
  {
    if w.read.Some? then
      Tried([], Unread(s, w.read.value.after), 0, Threw(FailedRead, READ_FAILED + w.read.value.error))
    else
      var r := Parse(s, []);
      match r.outcome
      case Closed => Tried([], r.rest, 0, Return)
      case Truncated => Tried([], r.rest, 0, Threw(TruncatedRequest, TRUNCATED))
      case Received(m) =>
        match AnswerTo(d, k, m)
        case Exception(what) => Tried([], r.rest, 1, Threw(Failure(m), what))
        case Fatal => Tried([], r.rest, 1, ThrewOther)
        case Result(reply) =>
          Tried([Sent(Reply(m), reply, w.reply)], r.rest, 1,
                if w.reply.None? then Continue else Threw(FailedReply(m), WRITE_FAILED + w.reply.value.error))
  }

  datatype End = ConnectionClosed | CommunicationError | ProcessingError

  /** All that is sent on a connection, and how it ends. */
  datatype Service = Service(log: seq<Sent>, end: End)

  function After(log: seq<Sent>, s: Service): Service {
    Service(log + s.log, s.end)
  }

  function Serve(d: Dispatcher, weather: seq<Weather>, k: nat, s: seq<Byte>): Service
    decreases |weather|, |s|
  {
    var w := Now(weather);
    var t := Try(d, w, k, s);
    match t.flow
    case Continue => After(t.log, Serve(d, Later(weather), k + t.received, t.rest))
    case Return => Service(t.log, ConnectionClosed)
    case ThrewOther => Service(t.log, ProcessingError)
    case Threw(cause, what) =>
      var log := t.log + [Sent(cause, ExceptionMessage(what), w.exception)];
      if w.exception.Some? then Service(log, CommunicationError)
      else After(log, Serve(d, Later(weather), k + t.received, t.rest))
  }

  // ---------------------------------------------------------------------
  // The code

  /** getModuleNameFromMessageId. */
  method FindModuleName(id: seq<Byte>) returns (name: Option<seq<Byte>>)
    ensures name == ModuleName(id)
  {
    var tokens := Split(id);
    if |tokens| != 3 || tokens[0] != MAMMUT {
      return None;
    }
    return Some(tokens[1]);
  }

  /** Communicator::send with writes that can fail or be short; false for the
      exception. */
  method SendOrFail(socket: Socket, m: Message, fault: Option<Fault>) returns (ok: bool)
    modifies socket`outgoing
    ensures ok <==> fault.None?
    ensures forall cause :: socket.outgoing == old(socket.outgoing) + BytesOf(Sent(cause, m, fault))
  {
    if fault.None? {
      Send(socket, m.id, m.body);
      return true;
    }
    var f := Frame(m);
    socket.Write(if |f| <= fault.value.after then f else f[..fault.value.after]);
    ok := false;
  }

  /** Communicator::receive with reads that can fail; None for the exception. */
  method ReceiveOrFail(socket: Socket, fault: Option<Fault>) returns (outcome: Option<Outcome>)
    modifies socket`incoming
    ensures outcome.None? <==> fault.Some?
    ensures fault.Some? ==> socket.incoming == Unread(old(socket.incoming), fault.value.after)
    ensures outcome.Some? ==> Reading(outcome.value, socket.incoming) == Parse(old(socket.incoming), [])
  {
    if fault.None? {
      var o := Receive(socket, []);
      return Some(o);
    }
    ghost var s := socket.incoming;
    ghost var rest := Unread(s, fault.value.after);
    var left := |Unread(socket.incoming, fault.value.after)|;
    while |socket.incoming| > left
      invariant |socket.incoming| >= left
      invariant socket.incoming == s[|s| - |socket.incoming|..]
    {
      var chunk := socket.Read(|socket.incoming| - left);
    }
    return None;
  }

  /** What is between receiving and sending; an exception that is thrown is a result. */
  method Process(d: Dispatcher, k: nat, m: Message) returns (answer: Answer)
    ensures answer == AnswerTo(d, k, m)
  {
    hide ModuleName, Ascii;
    var moduleId := FindModuleName(m.id);
    if moduleId.None? {
      return Exception(Ascii("Wrong message id: ") + m.id);
    }
    if moduleId.value !in d || d[moduleId.value].None? {
      return Exception(Ascii("Server: Module ") + moduleId.value + Ascii(" not activated."));
    }
    var processed := d[moduleId.value].value(k, m);
    match processed
    case Refused =>
      return Exception(Ascii("Server: Error while processing message ") + m.id + Ascii("."));
    case RuntimeError(what) =>
      return Exception(what);
    case OtherError =>
      return Fatal;
    case Replied(reply) =>
      return Result(reply);
  }

  /** The try block. */
  method TryRound(socket: Socket, d: Dispatcher, w: Weather, k: nat)
    returns (flow: Flow, received: nat, ghost log: seq<Sent>)
    modifies socket
    ensures Tried(log, socket.incoming, received, flow) == Try(d, w, k, old(socket.incoming))
    ensures socket.outgoing == old(socket.outgoing) + Bytes(log)
  {
    hide Parse, AnswerTo, Frame, Unread, Ascii, BytesOf;
    log, received := [], 0;
    BytesNothing();
    assert socket.outgoing == socket.outgoing + Bytes([]);
    var outcome := ReceiveOrFail(socket, w.read);
    if outcome.None? {
      return Threw(FailedRead, READ_FAILED + w.read.value.error), 0, [];
    }
    if outcome.value.Closed? {
      return Return, 0, [];
    }
    if outcome.value.Truncated? {
      return Threw(TruncatedRequest, TRUNCATED), 0, [];
    }
    var m := outcome.value.m;
    var answer := Process(d, k, m);
    match answer
    case Exception(what) =>
      return Threw(Failure(m), what), 1, [];
    case Fatal =>
      return ThrewOther, 1, [];
    case Result(reply) =>
      var ok := SendOrFail(socket, reply, w.reply);
      log := [Sent(Reply(m), reply, w.reply)];
      BytesSnoc([], log[0]);
      assert [] + log == log;
      if ok {
        return Continue, 1, log;
      }
      return Threw(FailedReply(m), WRITE_FAILED + w.reply.value.error), 1, log;
  }

  /** Servant::run. */
  method Run(socket: Socket, d: Dispatcher, weather: seq<Weather>) returns (end: End, ghost log: seq<Sent>)
    modifies socket
    ensures Service(log, end) == Serve(d, weather, 0, old(socket.incoming))
    ensures socket.outgoing == old(socket.outgoing) + Bytes(log)
  {
    hide Try, BytesOf, Bytes, Until, Serve;
    var ahead := weather;
    var k := 0;
    log := [];
    BytesNothing();
    ghost var before := socket.outgoing;
    while true
      invariant Serve(d, weather, 0, old(socket.incoming)) == After(log, Serve(d, ahead, k, socket.incoming))
      invariant socket.outgoing == before + Bytes(log)
      decreases |ahead|, |socket.incoming|
    {
      var w := Now(ahead);
      ghost var later := Later(ahead);
      ghost var soFar, out := log, socket.outgoing;
      ServeStep(d, ahead, k, socket.incoming);
      var flow, received, sent := TryRound(socket, d, w, k);
      log := log + sent;
      BytesConcat(soFar, sent);
      k := k + received;
      ahead := Later(ahead);
      match flow
      case Continue =>
        AfterAfter(soFar, sent, Serve(d, ahead, k, socket.incoming));
      case Return =>
        return ConnectionClosed, log;
      case ThrewOther =>
        return ProcessingError, log;
      case Threw(cause, what) =>
        var m := ExceptionMessage(what);
        var ok := SendOrFail(socket, m, w.exception);
        ghost var e := Sent(cause, m, w.exception);
        BytesSnoc(log, e);
        log := log + [e];
        assert log == soFar + (sent + [e]);
        if !ok {
          return CommunicationError, log;
        }
        AfterAfter(soFar, sent + [e], Serve(d, ahead, k, socket.incoming));
    }
  }

  /** One round of the function. */
  lemma ServeStep(d: Dispatcher, weather: seq<Weather>, k: nat, s: seq<Byte>)
    ensures var w := Now(weather);
      var t := Try(d, w, k, s);
      var next := Serve(d, Later(weather), k + t.received, t.rest);
      Serve(d, weather, k, s) ==
      match t.flow
      case Continue => After(t.log, next)
      case Return => Service(t.log, ConnectionClosed)
      case ThrewOther => Service(t.log, ProcessingError)
      case Threw(cause, what) =>
        var log := t.log + [Sent(cause, ExceptionMessage(what), w.exception)];
        if w.exception.Some? then Service(log, CommunicationError) else After(log, next)
  {
    hide Try, ExceptionMessage;
  }

  lemma AfterAfter(a: seq<Sent>, b: seq<Sent>, s: Service)
    ensures After(a, After(b, s)) == After(a + b, s)
  {
    assert a + (b + s.log) == (a + b) + s.log;
  }

  lemma BytesNothing()
    ensures Bytes([]) == []
  {
  }

  lemma BytesSnoc(log: seq<Sent>, e: Sent)
    ensures Bytes(log + [e]) == Bytes(log) + BytesOf(e)
  {
    assert (log + [e])[..|log|] == log;
  }

  lemma {:induction false} BytesConcat(a: seq<Sent>, b: seq<Sent>)
    ensures Bytes(a + b) == Bytes(a) + Bytes(b)
  {
    hide BytesOf, Bytes;
    if b == [] {
      BytesNothing();
      assert a + b == a;
    } else {
      var c, e := b[..|b| - 1], b[|b| - 1];
      BytesConcat(a, c);
      assert a + b == (a + c) + [e] && b == c + [e];
      BytesSnoc(a + c, e);
      BytesSnoc(c, e);
    }
  }

  // ---------------------------------------------------------------------
  // One reply for each request

  function At(weather: seq<Weather>, i: nat): Weather {
    if i < |weather| then weather[i] else CALM
  }

  /** Nothing fails that the request needs, and it does not end the connection. */
  predicate Smooth(d: Dispatcher, w: Weather, k: nat, m: Message) {
    && w.read.None?
    && match AnswerTo(d, k, m)
       case Result(_) => w.reply.None?
       case Exception(_) => w.exception.None?
       case Fatal => false
  }

  /** Nothing fails at the end of the stream; if it ends inside a request an exception is
      sent for that and the end is read once more. */
  predicate SmoothEnd(weather: seq<Weather>, i: nat, last: Outcome) {
    && At(weather, i).read.None?
    && (last.Truncated? ==> At(weather, i).exception.None? && At(weather, i + 1).read.None?)
  }

  /** Nothing that happens disturbs the service of the messages and of the end. */
  ghost predicate Undisturbed(d: Dispatcher, weather: seq<Weather>, k: nat, ms: seq<Message>, last: Outcome) {
    && (forall i :: 0 <= i < |ms| ==> Smooth(d, At(weather, i), k + i, ms[i]))
    && SmoothEnd(weather, |ms|, last)
  }

  predicate Answers(e: Sent, m: Message) {
    e.fault.None? && (e.cause == Reply(m) || e.cause == Failure(m))
  }

  /** One whole frame for each message, in order, and one more exactly if the stream ends
      inside a request. */
  ghost predicate OneEach(log: seq<Sent>, ms: seq<Message>, last: Outcome) {
    && |log| == |ms| + (if last.Truncated? then 1 else 0)
    && (forall i :: 0 <= i < |ms| ==> Answers(log[i], ms[i]))
    && (last.Truncated? ==> log[|ms|] == Sent(TruncatedRequest, ExceptionMessage(TRUNCATED), None))
  }

  lemma {:induction false} AllStep(s: seq<Byte>)
    ensures var r := Parse(s, []);
      if r.outcome.Received? then
        && ParseAll(s).0 != [] && ParseAll(s).0[0] == r.outcome.m
        && ParseAll(r.rest) == (ParseAll(s).0[1..], ParseAll(s).1)
      else ParseAll(s) == ([], r.outcome) && r.rest == [] && (r.outcome.Truncated? ==> s != [])
  {
    hide ReadLength;
    ClosedExactly(s, []);
  }

  lemma AtLater(weather: seq<Weather>, i: nat)
    ensures At(Later(weather), i) == At(weather, i + 1) && At(weather, 0) == Now(weather)
  {
  }

  lemma UndisturbedLater(d: Dispatcher, weather: seq<Weather>, k: nat, ms: seq<Message>, last: Outcome)
    requires ms != []
    ensures Undisturbed(d, weather, k, ms, last)
       <==> Smooth(d, Now(weather), k, ms[0]) && Undisturbed(d, Later(weather), k + 1, ms[1..], last)
  {
    hide Smooth, Now, Later, At;
    var n := |ms| - 1;
    forall i | 0 <= i < |ms| + 1
      ensures At(Later(weather), i) == At(weather, i + 1)
    {
      AtLater(weather, i);
    }
    AtLater(weather, 0);
    assert SmoothEnd(weather, |ms|, last) == SmoothEnd(Later(weather), n, last) by {
      assert At(Later(weather), n) == At(weather, n + 1);
      assert At(Later(weather), n + 1) == At(weather, n + 2);
    }
    if Smooth(d, Now(weather), k, ms[0]) && Undisturbed(d, Later(weather), k + 1, ms[1..], last) {
      forall i | 0 <= i < |ms|
        ensures Smooth(d, At(weather, i), k + i, ms[i])
      {
        if i > 0 {
          assert ms[i] == ms[1..][i - 1];
          assert Smooth(d, At(Later(weather), i - 1), k + 1 + (i - 1), ms[1..][i - 1]);
        }
      }
    }
    if Undisturbed(d, weather, k, ms, last) {
      forall i | 0 <= i < n
        ensures Smooth(d, At(Later(weather), i), k + 1 + i, ms[1..][i])
      {
        assert Smooth(d, At(weather, i + 1), k + (i + 1), ms[i + 1]);
      }
      assert Smooth(d, At(weather, 0), k + 0, ms[0]);
    }
  }

  lemma OneEachLater(e: Sent, log: seq<Sent>, ms: seq<Message>, last: Outcome)
    requires ms != []
    ensures OneEach([e] + log, ms, last) <==> Answers(e, ms[0]) && OneEach(log, ms[1..], last)
  {
    hide Answers, OneEach;
    if Answers(e, ms[0]) && OneEach(log, ms[1..], last) {
      OneEachPrepended(e, log, ms, last);
    }
    if OneEach([e] + log, ms, last) {
      OneEachRest(e, log, ms, last);
    }
  }

  lemma OneEachPrepended(e: Sent, log: seq<Sent>, ms: seq<Message>, last: Outcome)
    requires ms != [] && Answers(e, ms[0]) && OneEach(log, ms[1..], last)
    ensures OneEach([e] + log, ms, last)
  {
    hide Answers, ExceptionMessage;
    forall i | 0 <= i < |ms|
      ensures Answers(([e] + log)[i], ms[i])
    {
      if i > 0 {
        assert Answers(log[i - 1], ms[1..][i - 1]);
      }
    }
  }

  lemma OneEachRest(e: Sent, log: seq<Sent>, ms: seq<Message>, last: Outcome)
    requires ms != [] && OneEach([e] + log, ms, last)
    ensures Answers(e, ms[0]) && OneEach(log, ms[1..], last)
  {
    hide Answers, ExceptionMessage;
    var all := [e] + log;
    assert Answers(all[0], ms[0]);
    forall i | 0 <= i < |ms| - 1
      ensures Answers(log[i], ms[1..][i])
    {
      assert Answers(all[i + 1], ms[i + 1]);
    }
  }

  /** What is sent for a request when nothing fails. */
  function Entry(d: Dispatcher, k: nat, m: Message): Sent {
    Sent(if AnswerTo(d, k, m).Result? then Reply(m) else Failure(m), ReplyTo(d, k, m), None)
  }

  lemma ServeSmooth(d: Dispatcher, weather: seq<Weather>, k: nat, s: seq<Byte>)
    requires Parse(s, []).outcome.Received? && Smooth(d, Now(weather), k, Parse(s, []).outcome.m)
    ensures Serve(d, weather, k, s)
         == After([Entry(d, k, Parse(s, []).outcome.m)], Serve(d, Later(weather), k + 1, Parse(s, []).rest))
    ensures Answers(Entry(d, k, Parse(s, []).outcome.m), Parse(s, []).outcome.m)
  {
    hide Parse, AnswerTo, Now, Later;
    var m := Parse(s, []).outcome.m;
    assert [] + [Entry(d, k, m)] == [Entry(d, k, m)];
  }

  lemma ServeRough(d: Dispatcher, weather: seq<Weather>, k: nat, s: seq<Byte>)
    requires Parse(s, []).outcome.Received? && !Smooth(d, Now(weather), k, Parse(s, []).outcome.m)
    ensures var log := Serve(d, weather, k, s).log;
      log == [] || !Answers(log[0], Parse(s, []).outcome.m)
  {
    hide Parse, AnswerTo, Now, Later;
  }

  lemma ServeEnd(d: Dispatcher, weather: seq<Weather>, k: nat, s: seq<Byte>)
    requires !Parse(s, []).outcome.Received?
    ensures OneEach(Serve(d, weather, k, s).log, [], Parse(s, []).outcome)
       <==> SmoothEnd(weather, 0, Parse(s, []).outcome)
    ensures SmoothEnd(weather, 0, Parse(s, []).outcome) ==> Serve(d, weather, k, s).end.ConnectionClosed?
  {
    hide Parse, AnswerTo, Now, Later, At, ExceptionMessage;
    AtLater(weather, 0);
    AtLater(weather, 1);
    AllStep(s);
    var w, last := Now(weather), Parse(s, []).outcome;
    var log := Serve(d, weather, k, s).log;
    if w.read.Some? {
      assert log != [] && log[0].cause.FailedRead?;
    } else if last.Truncated? {
      var e := Sent(TruncatedRequest, ExceptionMessage(TRUNCATED), w.exception);
      assert [] + [e] == [e];
      if w.exception.None? {
        ServeNothing(d, Later(weather), k);
        AtLater(Later(weather), 0);
        var after := Serve(d, Later(weather), k, []);
        assert log == [e] + after.log;
        assert after.log == [] ==> log == [e];
        assert |log| == 1 + |after.log|;
      }
    }
  }

  /** At the end of the stream. */
  lemma ServeNothing(d: Dispatcher, weather: seq<Weather>, k: nat)
    ensures Serve(d, weather, k, []).log == [] <==> Now(weather).read.None?
    ensures Now(weather).read.None? ==> Serve(d, weather, k, []).end.ConnectionClosed?
  {
    hide Parse, AnswerTo, Now, Later;
    AllStep([]);
    ClosedExactly([], []);
  }

  /** Exactly when the servant sends one whole frame for each request that arrives, in
      order, and one exception for a request that the end of the stream cuts off; then it
      ends with the connection. */
  lemma {:induction false} UndisturbedExactly(d: Dispatcher, weather: seq<Weather>, k: nat, s: seq<Byte>)
    ensures OneEach(Serve(d, weather, k, s).log, ParseAll(s).0, ParseAll(s).1)
       <==> Undisturbed(d, weather, k, ParseAll(s).0, ParseAll(s).1)
    ensures Undisturbed(d, weather, k, ParseAll(s).0, ParseAll(s).1) ==> Serve(d, weather, k, s).end.ConnectionClosed?
    decreases |s|
  {
    hide Parse, Serve, Smooth, Answers, OneEach, Undisturbed, Entry, ParseAll, Now, Later;
    AllStep(s);
    var r := Parse(s, []);
    var (ms, last) := ParseAll(s);
    var log := Serve(d, weather, k, s).log;
    if !r.outcome.Received? {
      ServeEnd(d, weather, k, s);
      EndOnly(d, weather, k, last);
    } else {
      UndisturbedLater(d, weather, k, ms, last);
      if Smooth(d, Now(weather), k, ms[0]) {
        ServeSmooth(d, weather, k, s);
        UndisturbedExactly(d, Later(weather), k + 1, r.rest);
        OneEachLater(Entry(d, k, ms[0]), Serve(d, Later(weather), k + 1, r.rest).log, ms, last);
      } else {
        ServeRough(d, weather, k, s);
        FirstAnswers(log, ms, last);
      }
    }
  }

  lemma EndOnly(d: Dispatcher, weather: seq<Weather>, k: nat, last: Outcome)
    ensures Undisturbed(d, weather, k, [], last) <==> SmoothEnd(weather, 0, last)
  {
  }

  lemma FirstAnswers(log: seq<Sent>, ms: seq<Message>, last: Outcome)
    requires ms != []
    ensures OneEach(log, ms, last) ==> log != [] && Answers(log[0], ms[0])
  {
  }

  /** The frames up to the first disturbance, whatever comes then: each request got the
      answer of its module, or the exception that stands for it. */
  lemma {:induction false} RepliesInOrder(d: Dispatcher, weather: seq<Weather>, k: nat, s: seq<Byte>, n: nat)
    requires n <= |ParseAll(s).0|
    requires forall i :: 0 <= i < n ==> Smooth(d, At(weather, i), k + i, ParseAll(s).0[i])
    ensures var log := Serve(d, weather, k, s).log;
      n <= |log| && forall i :: 0 <= i < n ==> log[i] == Entry(d, k + i, ParseAll(s).0[i])
    decreases n
  {
    hide Parse, Serve, Smooth, Answers, ParseAll, Now, Later, At, Entry, AnswerTo;
    if n > 0 {
      AllStep(s);
      var r := Parse(s, []);
      var ms := ParseAll(s).0;
      AtLater(weather, 0);
      assert Smooth(d, At(weather, 0), k + 0, ms[0]);
      ServeSmooth(d, weather, k, s);
      forall i | 0 <= i < n - 1
        ensures Smooth(d, At(Later(weather), i), k + 1 + i, ms[1..][i])
      {
        AtLater(weather, i);
        assert Smooth(d, At(weather, i + 1), k + (i + 1), ms[i + 1]);
      }
      RepliesInOrder(d, Later(weather), k + 1, r.rest, n - 1);
      var log, after := Serve(d, weather, k, s).log, Serve(d, Later(weather), k + 1, r.rest).log;
      assert log == [Entry(d, k, ms[0])] + after;
      forall i | 0 <= i < n
        ensures log[i] == Entry(d, k + i, ms[i])
      {
        if i > 0 {
          assert log[i] == after[i - 1] && ms[i] == ms[1..][i - 1];
          assert after[i - 1] == Entry(d, k + 1 + (i - 1), ms[1..][i - 1]);
        }
      }
    }
  }

  ghost predicate NoReadFails(weather: seq<Weather>) {
    forall i :: 0 <= i < |weather| ==> weather[i].read.None?
  }

  /** The request does not end the connection. */
  predicate Survives(d: Dispatcher, w: Weather, k: nat, m: Message) {
    match AnswerTo(d, k, m)
    case Result(_) => w.reply.Some? ==> w.exception.None?
    case Exception(_) => w.exception.None?
    case Fatal => false
  }

  /** No request ends the connection, nor does the exception for the last one. */
  ghost predicate AllSurvive(d: Dispatcher, weather: seq<Weather>, k: nat, ms: seq<Message>, last: Outcome) {
    && (forall i :: 0 <= i < |ms| ==> Survives(d, At(weather, i), k + i, ms[i]))
    && (last.Truncated? ==> At(weather, |ms|).exception.None?)
  }

  lemma AllSurviveLater(d: Dispatcher, weather: seq<Weather>, k: nat, ms: seq<Message>, last: Outcome)
    requires ms != []
    ensures AllSurvive(d, weather, k, ms, last)
       <==> Survives(d, Now(weather), k, ms[0]) && AllSurvive(d, Later(weather), k + 1, ms[1..], last)
  {
    hide Survives, Now, Later, At;
    AtLater(weather, 0);
    AtLater(weather, |ms| - 1);
    if Survives(d, Now(weather), k, ms[0]) && AllSurvive(d, Later(weather), k + 1, ms[1..], last) {
      forall i | 0 <= i < |ms|
        ensures Survives(d, At(weather, i), k + i, ms[i])
      {
        if i > 0 {
          AtLater(weather, i - 1);
          assert Survives(d, At(Later(weather), i - 1), k + 1 + (i - 1), ms[1..][i - 1]);
        }
      }
    }
    if AllSurvive(d, weather, k, ms, last) {
      forall i | 0 <= i < |ms| - 1
        ensures Survives(d, At(Later(weather), i), k + 1 + i, ms[1..][i])
      {
        AtLater(weather, i);
        assert Survives(d, At(weather, i + 1), k + (i + 1), ms[i + 1]);
      }
      assert Survives(d, At(weather, 0), k + 0, ms[0]);
    }
  }

  /** When no read fails the servant goes on to the end of the stream unless an error is
      not a runtime_error or an exception cannot be sent. */
  lemma {:induction false} EndsExactly(d: Dispatcher, weather: seq<Weather>, k: nat, s: seq<Byte>)
    requires NoReadFails(weather)
    ensures Serve(d, weather, k, s).end.ConnectionClosed?
       <==> AllSurvive(d, weather, k, ParseAll(s).0, ParseAll(s).1)
    decreases |s|
  {
    hide Parse, Survives, AllSurvive, ParseAll, ExceptionMessage, Serve;
    AllStep(s);
    if Parse(s, []).outcome.Received? {
      SurvivesStep(d, weather, k, s);
      EndsExactly(d, Later(weather), k + 1, Parse(s, []).rest);
      AllSurviveLater(d, weather, k, ParseAll(s).0, ParseAll(s).1);
    } else {
      SurvivesEnd(d, weather, k, s);
    }
  }

  lemma SurvivesEnd(d: Dispatcher, weather: seq<Weather>, k: nat, s: seq<Byte>)
    requires !Parse(s, []).outcome.Received? && NoReadFails(weather)
    ensures Serve(d, weather, k, s).end.ConnectionClosed? <==> AllSurvive(d, weather, k, [], Parse(s, []).outcome)
  {
    hide Parse, AnswerTo, ExceptionMessage;
    AllStep(s);
    ServeNothing(d, Later(weather), k);
  }

  lemma SurvivesStep(d: Dispatcher, weather: seq<Weather>, k: nat, s: seq<Byte>)
    requires Parse(s, []).outcome.Received? && Now(weather).read.None?
    ensures Serve(d, weather, k, s).end.ConnectionClosed?
       <==> && Survives(d, Now(weather), k, Parse(s, []).outcome.m)
            && Serve(d, Later(weather), k + 1, Parse(s, []).rest).end.ConnectionClosed?
  {
    hide Parse, AnswerTo, Now, Later;
  }

  /** Results are named by their type, as setMessageFromData does it. */
  ghost predicate ResultsNamed(d: Dispatcher) {
    forall k: nat, m :: AnswerTo(d, k, m).Result? ==> AnswerTo(d, k, m).reply.id != []
  }

  lemma TryCauses(d: Dispatcher, w: Weather, k: nat, s: seq<Byte>)
    requires ResultsNamed(d)
    ensures var t := Try(d, w, k, s);
      && |t.log| <= 1
      && (t.log != [] ==> t.log[0].cause.Reply? && t.log[0].message.id != [])
      && (t.flow.Threw? ==> !t.flow.cause.Reply?)
  {
    hide Parse, AnswerTo, Unread;
  }

  /** The identifier tells the client what it got: over every run, whatever fails, it is
      empty exactly on the frames that stand for an exception. */
  lemma {:induction false} EmptyIdExactly(d: Dispatcher, weather: seq<Weather>, k: nat, s: seq<Byte>, i: nat)
    requires ResultsNamed(d) && i < |Serve(d, weather, k, s).log|
    ensures Serve(d, weather, k, s).log[i].message.id == [] <==> !Serve(d, weather, k, s).log[i].cause.Reply?
    decreases |weather|, |s|
  {
    hide Try, AnswerTo, Until, ResultsNamed;
    var w := Now(weather);
    var t := Try(d, w, k, s);
    TryCauses(d, w, k, s);
    var mine := if t.flow.Threw? then t.log + [Sent(t.flow.cause, ExceptionMessage(t.flow.what), w.exception)]
                else t.log;
    if i >= |mine| {
      EmptyIdExactly(d, Later(weather), k + t.received, t.rest, i - |mine|);
    }
  }

  // ---------------------------------------------------------------------
  // What becomes of each outcome of a module

  /** The exception with a text, up to its first 0. */
  function Thrown(m: Message, text: seq<Byte>): Sent {
    Sent(Failure(m), Message([], Until(text, 0)), None)
  }

  /** An identifier in bytes: "mammut.x.y" names the module x. */
  lemma MammutInBytes()
    ensures ModuleName([109, 97, 109, 109, 117, 116, 46, 120, 46, 121]) == Some([120])
  {
    var id, last: seq<Byte> := [109, 97, 109, 109, 117, 116, 46, 120, 46, 121], [121];
    assert MAMMUT == [109, 97, 109, 109, 117, 116];
    assert id == MAMMUT + [DOT] + ([120] + [DOT] + last);
    assert Ending(last, last);
    assert Names(id, [120], last, last);
    ModuleNameExactly(id, [120]);
  }

  /** A request for module `name`, which may or may not be there: its reply is sent as it
      is; a runtime_error, a refusal and a missing module are sent as exceptions with their
      texts; after all of these the servant goes on, and only another error ends it, with
      nothing sent. */
  lemma ModuleOutcomes(d: Dispatcher, weather: seq<Weather>, k: nat, s: seq<Byte>, m: Message,
                       name: seq<Byte>, last: seq<Byte>, t: seq<Byte>)
    requires Parse(s, []).outcome == Received(m) && Names(m.id, name, last, t) && Now(weather) == CALM
    ensures var next := Serve(d, Later(weather), k + 1, Parse(s, []).rest);
      Serve(d, weather, k, s) ==
      if name !in d || d[name].None? then
        After([Thrown(m, Ascii("Server: Module ") + name + Ascii(" not activated."))], next)
      else
        match d[name].value(k, m)
        case Replied(r) => After([Sent(Reply(m), r, None)], next)
        case RuntimeError(what) => After([Thrown(m, what)], next)
        case Refused => After([Thrown(m, Ascii("Server: Error while processing message ") + m.id + Ascii("."))], next)
        case OtherError => Service([], ProcessingError)
  {
    hide Parse, ModuleName, Ascii, Names, Until;
    ModuleNameExactly(m.id, name);
    assert Names(m.id, name, last, t);
    ServeStep(d, weather, k, s);
    AppendedToNothing(d, weather, k, s);
  }

  /** A request whose identifier names no module. */
  lemma WrongIdOutcome(d: Dispatcher, weather: seq<Weather>, k: nat, s: seq<Byte>, m: Message)
    requires Parse(s, []).outcome == Received(m) && Now(weather) == CALM
    requires !exists name, last, t :: Names(m.id, name, last, t)
    ensures Serve(d, weather, k, s)
         == After([Thrown(m, Ascii("Wrong message id: ") + m.id)], Serve(d, Later(weather), k + 1, Parse(s, []).rest))
  {
    hide Parse, ModuleName, Ascii, Names, Until;
    if ModuleName(m.id).Some? {
      ModuleNameExactly(m.id, ModuleName(m.id).value);
    }
    ServeStep(d, weather, k, s);
    AppendedToNothing(d, weather, k, s);
  }

  lemma AppendedToNothing(d: Dispatcher, weather: seq<Weather>, k: nat, s: seq<Byte>)
    ensures var t := Try(d, Now(weather), k, s);
      t.flow.Threw? && t.log == [] ==>
        var e := Sent(t.flow.cause, ExceptionMessage(t.flow.what), Now(weather).exception);
        t.log + [e] == [e]
  {
  }

  /** A read that fails: an exception, and the next round reads from where that one
      stopped. */
  lemma ReadFailureOutcome(d: Dispatcher, weather: seq<Weather>, k: nat, s: seq<Byte>, fault: Fault)
    requires Now(weather) == Weather(Some(fault), None, None)
    ensures Serve(d, weather, k, s)
         == After([Sent(FailedRead, Message([], Until(Ascii("CommunicatorTcp: Read failed: ") + fault.error, 0)),
                        None)],
                  Serve(d, Later(weather), k, Unread(s, fault.after)))
  {
    hide Parse, Ascii, Until, Unread;
    ServeStep(d, weather, k, s);
    AppendedToNothing(d, weather, k, s);
  }

  /** A stream that ends inside a request: an exception, and then the end. */
  lemma TruncationOutcome(d: Dispatcher, k: nat, s: seq<Byte>)
    requires Parse(s, []).outcome.Truncated?
    ensures Serve(d, [], k, s)
         == Service([Sent(TruncatedRequest, Message([], Until(Ascii("Communicator: Truncated receive."), 0)), None)],
                    ConnectionClosed)
  {
    hide Parse, Ascii, Until;
    ServeStep(d, [], k, s);
    AppendedToNothing(d, [], k, s);
    ClosedExactly(s, []);
    ServeNothing(d, [], k);
  }

  // ---------------------------------------------------------------------
  // What the client receives

  function Messages(log: seq<Sent>): (ms: seq<Message>)
    ensures |ms| == |log| && forall i :: 0 <= i < |log| ==> ms[i] == log[i].message
  {
    seq(|log|, i requires 0 <= i < |log| => log[i].message)
  }

  lemma {:induction false} BytesAreFrames(log: seq<Sent>)
    requires forall i :: 0 <= i < |log| ==> log[i].fault.None?
    ensures Bytes(log) == Frames(Messages(log))
  {
    hide Frame;
    if log == [] {
      assert Messages(log) == [];
    } else {
      var before := log[..|log| - 1];
      BytesAreFrames(before);
      assert Messages(log) == Messages(before) + [log[|log| - 1].message];
      FramesSnoc(Messages(before), log[|log| - 1].message);
    }
  }

  /** What an undisturbed servant sends on a stream of requests. */
  ghost function Replies(d: Dispatcher, s: seq<Byte>): seq<Message> {
    var (ms, last) := ParseAll(s);
    seq(|ms|, i requires 0 <= i < |ms| => ReplyTo(d, i, ms[i])) +
    (if last.Truncated? then [ExceptionMessage(TRUNCATED)] else [])
  }

  lemma UndisturbedReplies(d: Dispatcher, weather: seq<Weather>, s: seq<Byte>)
    requires Undisturbed(d, weather, 0, ParseAll(s).0, ParseAll(s).1)
    ensures Bytes(Serve(d, weather, 0, s).log) == Frames(Replies(d, s))
  {
    hide Serve, Smooth, SmoothEnd, Bytes, ParseAll, AnswerTo, ReplyTo, At, Replies, OneEach, Frames, Messages;
    UndisturbedExactly(d, weather, 0, s);
    RepliesInOrder(d, weather, 0, s, |ParseAll(s).0|);
    RepliesAreMessages(d, Serve(d, weather, 0, s).log, s);
    BytesAreFrames(Serve(d, weather, 0, s).log);
  }

  lemma RepliesAreMessages(d: Dispatcher, log: seq<Sent>, s: seq<Byte>)
    requires OneEach(log, ParseAll(s).0, ParseAll(s).1)
    requires forall i :: 0 <= i < |ParseAll(s).0| ==> log[i] == Entry(d, 0 + i, ParseAll(s).0[i])
    ensures forall i :: 0 <= i < |log| ==> log[i].fault.None?
    ensures Messages(log) == Replies(d, s)
  {
    hide ParseAll, AnswerTo, ReplyTo, ExceptionMessage;
    var ms := ParseAll(s).0;
    assert forall i :: 0 <= i < |ms| ==> log[i].message == ReplyTo(d, i, ms[i]);
    assert forall i :: 0 <= i < |ms| ==> Answers(log[i], ms[i]);
  }

  /** End to end: the client sends any bytes and closes its side, the servant runs, and
      the client receives: one reply for each request, in order, one exception more if
      the last request was cut off, and then the end. */
  method Exchange(requests: seq<Byte>, d: Dispatcher, weather: seq<Weather>)
    returns (replies: seq<Message>, last: Outcome, end: End)
    requires Undisturbed(d, weather, 0, ParseAll(requests).0, ParseAll(requests).1)
    requires Short(Replies(d, requests))
    ensures replies == Replies(d, requests) && last == Closed && end == ConnectionClosed
  {
    hide Serve, Undisturbed, ParseAll, Bytes, Frames, Replies;
    var server := new Socket(requests);
    ghost var log;
    end, log := Run(server, d, weather);
    assert [] + Bytes(log) == Bytes(log);
    UndisturbedExactly(d, weather, 0, requests);
    UndisturbedReplies(d, weather, requests);
    var client := new Socket(server.outgoing);
    replies, last := ReceiveAll(client);
    SequenceRoundTrip(Replies(d, requests));
  }

  // ---------------------------------------------------------------------
  // What failures cost

  /** A frame that is cut behind its header is filled up by the receiver with the bytes
      that follow: it receives a message of the right kind that was never sent. */
  lemma CutFrameIsFilled(m: Message, cut: nat, next: seq<Byte>)
    requires |m.id| < LIMIT && |m.body| < LIMIT
    requires |m.id| + 8 <= cut <= |Frame(m)| && |Frame(m)| - cut <= |next|
    ensures var missing := |Frame(m)| - cut;
      Parse(Frame(m)[..cut] + next, []) ==
      Reading(Received(Message(m.id, m.body[..|m.body| - missing] + next[..missing])), next[missing..])
  {
    var missing := |Frame(m)| - cut;
    var mixed := Message(m.id, m.body[..|m.body| - missing] + next[..missing]);
    assert Frame(m)[..cut] + next == Frame(mixed) + next[missing..];
    ParseFrame(mixed, next[missing..], []);
  }

  /** What a stream begins with that is received as a message without identifier. */
  lemma ReadAsPlain(s: seq<Byte>, e: Message)
    requires Parse(s, []).outcome == Received(e) && e.id == []
    ensures |s| >= 8 + |e.body| && Parse(s, []).rest == s[8 + |e.body|..]
    ensures s[0] == s[1] == s[2] == s[3] == 0
    ensures ReadLength(s[4..8]) == |e.body| && s[8..8 + |e.body|] == e.body
  {
    assert ReadLength(s[..4]) == 0;
  }

  /** Behind a reply, or a part of one, an exception is received as it was sent, and
      nothing else, exactly if no byte of the reply got out. */
  lemma CutExactly(m: Message, cut: nat, e: Message, rest: seq<Byte>)
    requires cut <= |Frame(m)| && e.id == [] && |e.body| < LIMIT
    ensures Parse(Frame(m)[..cut] + Frame(e) + rest, []) == Reading(Received(e), rest) <==> cut == 0
  {
    hide Parse, Frame;
    var s := Frame(m)[..cut] + Frame(e) + rest;
    assert |Frame(e)| == 8 + |e.body| by { PlainFrame(e); }
    if Parse(s, []).outcome == Received(e) {
      ReadAsPlain(s, e);
      assert |s| - |Frame(e)| == cut + |rest|;
    }
    if cut == 0 {
      assert s == Frame(e) + rest;
      ParseFrame(e, rest, []);
    }
  }

  lemma PlainFrame(e: Message)
    requires e.id == []
    ensures Frame(e) == Length32(0) + Length32(|e.body|) + e.body
    ensures Length32(0) == [0, 0, 0, 0]
  {
  }

  /** The text of an exception: a C string, not an empty one. */
  ghost predicate IsText(e: Message) {
    e.id == [] && e.body != [] && Free(e.body, 0)
  }

  /** The four bytes of a length, moved by up to three places behind zeros, stand for the
      same number only if it is 0. */
  lemma ShiftedLength(w: seq<Byte>, v: seq<Byte>, places: nat)
    requires |w| == |v| == 4 && 1 <= places <= 4
    requires forall i :: 0 <= i < places ==> v[i] == 0
    requires forall i :: places <= i < 4 ==> v[i] == w[i - places]
    ensures ReadLength(v) == ReadLength(w) ==> ReadLength(v) == 0
  {
  }

  /** Bytes that are moved by `cut` places in front of themselves: no part of a frame in
      front of a text lets the text be received. */
  lemma NotReadAs(m: Message, cut: nat, e: Message, rest: seq<Byte>)
    requires |m.id| < LIMIT && |m.body| < LIMIT && |e.body| < LIMIT && IsText(e)
    requires 0 < cut < |Frame(m)|
    ensures Parse(Frame(m)[..cut] + Frame(e) + rest, []).outcome != Received(e)
  {
    hide Parse, Frame, ReadLength, Length32;
    var s, f, size := Frame(m)[..cut] + Frame(e) + rest, Frame(e), |e.body|;
    PlainFrame(e);
    LengthRoundTrip(size);
    if Parse(s, []).outcome == Received(e) {
      ReadAsPlain(s, e);
      assert forall i :: 0 <= i < |f| ==> s[cut + i] == f[i];
      if cut <= 4 {
        assert forall i :: 0 <= i < 4 ==> s[4..8][i] == f[4 + i - cut];
        assert forall i :: 0 <= i < 4 ==> f[i] == 0 && f[4 + i] == Length32(size)[i];
        ShiftedLength(Length32(size), s[4..8], cut);
      } else if cut < 8 + size {
        ZeroInside(s, f, cut, size);
      } else {
        StartsPlain(m, cut, s);
      }
    }
  }

  lemma ZeroInside(s: seq<Byte>, f: seq<Byte>, cut: nat, size: nat)
    requires 4 < cut < 8 + size && 4 <= |f| && cut + |f| <= |s| && 8 + size <= |s|
    requires forall i :: 0 <= i < |f| ==> s[cut + i] == f[i]
    requires f[0] == f[1] == f[2] == f[3] == 0 && size > 0
    ensures !Free(s[8..8 + size], 0)
  {
    var at := if cut < 8 then 8 else cut;
    assert s[at] == f[at - cut] == 0;
    assert s[8..8 + size][at - 8] == s[at];
  }

  /** A frame that starts like one without identifier is one. */
  lemma StartsPlain(m: Message, cut: nat, s: seq<Byte>)
    requires |m.id| < LIMIT && |m.body| < LIMIT
    requires 8 <= cut <= |Frame(m)| && cut <= |s| && s[..cut] == Frame(m)[..cut]
    requires s[0] == s[1] == s[2] == s[3] == 0
    ensures |Frame(m)| == 8 + ReadLength(s[4..8])
  {
    hide Length32, ReadLength;
    LengthRoundTrip(|m.id|);
    LengthRoundTrip(|m.body|);
    Parts(Length32(|m.id|), m.id, Length32(|m.body|), m.body, []);
    assert Frame(m) + [] == Frame(m);
    assert s[..4] == s[..cut][..4] == Frame(m)[..4] == Length32(|m.id|);
    ZeroLength(s[..4]);
    assert s[4..8] == s[..cut][4..8] == Frame(m)[4..8] == Length32(|m.body|);
  }

  lemma ZeroLength(w: seq<Byte>)
    requires |w| == 4 && w[0] == w[1] == w[2] == w[3] == 0
    ensures ReadLength(w) == 0
  {
  }

  // ---------------------------------------------------------------------
  // What the client makes of a run with failures

  /** The frame did not get out as a whole. */
  predicate Cut(e: Sent) {
    e.fault.Some? && e.fault.value.after < |Frame(e.message)|
  }

  /** What got out as a whole, in order. */
  function Whole(log: seq<Sent>): seq<Message> {
    if log == [] then [] else (if Cut(log[0]) then [] else [log[0].message]) + Whole(log[1..])
  }

  /** Some bytes of the reply got out but not all, and what follows completes a frame: a
      whole exception, or as much as did get out of the one that ended the connection. */
  predicate Spoils(log: seq<Sent>, i: nat) {
    && i + 1 < |log| && Cut(log[i]) && log[i].cause.Reply? && log[i].fault.value.after > 0
    && (!Cut(log[i + 1]) || Parse(BytesOf(log[i]) + BytesOf(log[i + 1]), []).outcome.Received?)
  }

  /** How frames follow each other: a reply that could not be sent has an exception behind
      it, and an exception that could not be sent is the last. */
  predicate Follows(log: seq<Sent>, i: nat)
    requires i < |log|
  {
    var e := log[i];
    if e.cause.Reply? then e.fault.Some? ==> i + 1 < |log| && log[i + 1].cause.FailedReply?
    else
      && e.message.id == [] && (e.fault.Some? ==> i + 1 == |log|)
      && (e.cause.FailedReply? ==> e.message.body != [] && e.message.body[0] != 0)
  }

  ghost predicate Shaped(log: seq<Sent>) {
    && (forall i :: 0 <= i < |log| ==> Follows(log, i))
    && (forall i :: 0 <= i < |log| && !log[i].cause.Reply? ==> Free(log[i].message.body, 0))
  }

  lemma ShapedOne(e: Sent, log: seq<Sent>)
    requires Shaped(log) && e.fault.None? && (!e.cause.Reply? ==> IsException(e))
    ensures Shaped([e] + log)
  {
    var all := [e] + log;
    forall i | 0 <= i < |all|
      ensures Follows(all, i)
    {
      if i > 0 { assert Follows(log, i - 1); }
    }
  }

  lemma ShapedTwo(reply: Sent, e: Sent, log: seq<Sent>)
    requires Shaped(log) && reply.cause.Reply? && e.cause.FailedReply? && IsException(e)
    requires e.fault.None? || log == []
    ensures Shaped([reply, e] + log)
  {
    var all := [reply, e] + log;
    forall i | 0 <= i < |all|
      ensures Follows(all, i)
    {
      if i > 1 { assert Follows(log, i - 2); }
    }
  }

  /** An exception as the loop sends it. */
  ghost predicate IsException(e: Sent) {
    && e.message.id == [] && Free(e.message.body, 0)
    && (e.cause.FailedReply? ==> e.message.body != [] && e.message.body[0] != 0)
  }

  lemma TryException(d: Dispatcher, w: Weather, k: nat, s: seq<Byte>)
    ensures var t := Try(d, w, k, s);
      && (t.flow.Threw? ==>
            && !t.flow.cause.Reply?
            && IsException(Sent(t.flow.cause, ExceptionMessage(t.flow.what), w.exception)))
      && (t.flow.Threw? && t.flow.cause.FailedReply? ==> |t.log| == 1 && t.log[0].cause.Reply?)
      && (t.flow.Threw? && !t.flow.cause.FailedReply? ==> t.log == [])
      && (t.flow.Continue? ==> |t.log| == 1 && t.log[0].cause.Reply? && t.log[0].fault.None?)
      && (t.flow.Return? || t.flow.ThrewOther? ==> t.log == [])
  {
    hide Parse, AnswerTo, Unread;
    var t := Try(d, w, k, s);
    if t.flow.Threw? && t.flow.cause.FailedReply? {
      assert t.flow.what[0] == WRITE_FAILED[0] == 67;
    }
  }

  /** Every run of the servant has this shape. */
  lemma {:induction false} ServeShaped(d: Dispatcher, weather: seq<Weather>, k: nat, s: seq<Byte>)
    ensures Shaped(Serve(d, weather, k, s).log)
    decreases |weather|, |s|
  {
    hide Try, Serve, Shaped, IsException, ExceptionMessage;
    var w := Now(weather);
    var t := Try(d, w, k, s);
    ServeStep(d, weather, k, s);
    TryException(d, w, k, s);
    ShapedNothing();
    if t.flow.Continue? || (t.flow.Threw? && w.exception.None?) {
      ServeShaped(d, Later(weather), k + t.received, t.rest);
    }
    match t.flow
    case Continue =>
      var rest := Serve(d, Later(weather), k + t.received, t.rest).log;
      ShapedOne(t.log[0], rest);
      assert t.log == [t.log[0]];
    case Return =>
    case ThrewOther =>
    case Threw(cause, what) =>
      var e := Sent(cause, ExceptionMessage(what), w.exception);
      var rest := if w.exception.Some? then [] else Serve(d, Later(weather), k + t.received, t.rest).log;
      assert t.log + [e] + [] == t.log + [e];
      if cause.FailedReply? {
        ShapedTwo(t.log[0], e, rest);
        assert t.log + [e] == [t.log[0], e];
      } else {
        ShapedLast(e, rest);
        assert t.log + [e] == [e];
      }
  }

  lemma ShapedNothing()
    ensures Shaped([])
  {
  }

  lemma ShapedLast(e: Sent, log: seq<Sent>)
    requires Shaped(log) && !e.cause.Reply? && IsException(e) && (e.fault.None? || log == [])
    ensures Shaped([e] + log)
  {
    if e.fault.None? {
      ShapedOne(e, log);
    } else {
      assert [e] + log == [e];
      assert Follows([e], 0);
    }
  }

  lemma BytesFirst(log: seq<Sent>)
    requires log != []
    ensures Bytes(log) == BytesOf(log[0]) + Bytes(log[1..])
  {
    hide BytesOf, Bytes;
    BytesNothing();
    BytesSnoc([], log[0]);
    BytesConcat([log[0]], log[1..]);
    assert [] + [log[0]] == [log[0]] && [log[0]] + log[1..] == log;
    assert [] + BytesOf(log[0]) == BytesOf(log[0]);
  }

  lemma FirstOut(log: seq<Sent>)
    requires Shaped(log) && log != []
    ensures Shaped(log[1..])
    ensures forall i: nat :: Spoils(log, i + 1) == Spoils(log[1..], i)
  {
    hide BytesOf, Parse;
    forall i | 0 <= i < |log[1..]|
      ensures Follows(log[1..], i)
    {
      assert Follows(log, i + 1);
    }
  }

  ghost predicate Spoiled(log: seq<Sent>) {
    exists i: nat :: Spoils(log, i)
  }

  lemma SpoiledFirst(log: seq<Sent>)
    requires Shaped(log) && log != []
    ensures Spoiled(log) <==> Spoils(log, 0) || Spoiled(log[1..])
  {
    hide Spoils, Shaped;
    FirstOut(log);
    if Spoils(log, 0) {
    } else if i: nat :| Spoils(log, i) {
      var j: nat := i - 1;
      assert Spoils(log, j + 1);
      assert Spoils(log[1..], j);
    }
    if i: nat :| Spoils(log[1..], i) {
      assert Spoils(log, i + 1);
    }
  }

  /** A whole frame in front is received. */
  lemma WholeFirst(m: Message, s: seq<Byte>)
    requires |m.id| < LIMIT && |m.body| < LIMIT
    ensures ParseAll(Frame(m) + s).0 == [m] + ParseAll(s).0
  {
    hide Parse, Frame;
    ParseFrame(m, s, []);
    AllStep(Frame(m) + s);
    var all := ParseAll(Frame(m) + s).0;
    assert all == [all[0]] + all[1..];
  }

  lemma NothingYet(s: seq<Byte>)
    ensures ParseAll(s).0 == [] <==> !Parse(s, []).outcome.Received?
  {
    hide Parse;
    AllStep(s);
  }

  /** A part of a frame with nothing behind it is not received. */
  lemma PartOnly(m: Message, cut: nat)
    requires |m.id| < LIMIT && |m.body| < LIMIT && cut < |Frame(m)|
    ensures ParseAll(Frame(m)[..cut]).0 == []
  {
    hide Parse, Frame, ParseAll;
    TruncationExactly(m, cut, []);
    NothingYet(Frame(m)[..cut]);
  }

  /** Behind a part of a reply the exception is not what the client receives next. */
  lemma SpoiledByWhole(m: Message, cut: nat, e: Message, s: seq<Byte>, ms: seq<Message>)
    requires |m.id| < LIMIT && |m.body| < LIMIT && |e.body| < LIMIT && IsText(e) && 0 < cut < |Frame(m)|
    ensures ParseAll(Frame(m)[..cut] + (Frame(e) + s)).0 != [e] + ms
  {
    hide Parse, Frame, ParseAll;
    var all := Frame(m)[..cut] + (Frame(e) + s);
    assert all == Frame(m)[..cut] + Frame(e) + s;
    NotReadAs(m, cut, e, s);
    AllStep(all);
    assert ([e] + ms)[0] == e;
  }

  ghost predicate ShortLog(log: seq<Sent>) {
    forall i :: 0 <= i < |log| ==> |log[i].message.id| < LIMIT && |log[i].message.body| < LIMIT
  }

  /** When the first frame is a part of a reply. */
  lemma PartFirst(log: seq<Sent>)
    requires Shaped(log) && ShortLog(log) && log != []
    requires Cut(log[0]) && log[0].cause.Reply? && log[0].fault.value.after > 0
    ensures ParseAll(Bytes(log)).0 == Whole(log) <==> !Spoils(log, 0)
    ensures Spoils(log, 0) || |log| == 2
  {
    hide Parse, Frame, ParseAll, Bytes, Shaped;
    ShapedAt(log, 0);
    ShapedAt(log, 1);
    var m, cut, e := log[0].message, log[0].fault.value.after, log[1];
    BytesFirst(log);
    BytesFirst(log[1..]);
    var rest := log[1..][1..];
    if !Cut(e) {
      assert BytesOf(e) == Frame(e.message);
      SpoiledByWhole(m, cut, e.message, Bytes(rest), Whole(rest));
      assert Whole(log[1..]) == [e.message] + Whole(rest);
    } else {
      BytesNothing();
      assert rest == [];
      NothingYet(BytesOf(log[0]) + BytesOf(e));
      assert BytesOf(e) + [] == BytesOf(e);
    }
  }

  lemma ShapedAt(log: seq<Sent>, i: nat)
    requires Shaped(log) && i < |log|
    ensures Follows(log, i)
    ensures log[i].cause.FailedReply? ==> IsText(log[i].message)
  {
    assert Follows(log, i);
  }

  /** What the client receives, over every log of that shape: the messages that got out as
      a whole, in order, exactly if none of them spoils another. */
  lemma {:induction false} ReceivedFromLog(log: seq<Sent>)
    requires Shaped(log) && ShortLog(log)
    ensures ParseAll(Bytes(log)).0 == Whole(log) <==> !Spoiled(log)
    decreases |log|
  {
    hide Parse, Frame, ParseAll, Bytes, Shaped, Spoils, Spoiled;
    if log == [] {
      BytesNothing();
      AllStep([]);
      ClosedExactly([], []);
      NeverSpoiled();
    } else {
      var e, rest := log[0], log[1..];
      FirstOut(log);
      SpoiledFirst(log);
      BytesFirst(log);
      ReceivedFromLog(rest);
      if !Cut(e) {
        assert BytesOf(e) == Frame(e.message);
        WholeFirst(e.message, Bytes(rest));
        SpoilsNeedsCut(log);
        Prepended(e.message, ParseAll(Bytes(rest)).0, Whole(rest));
      } else if e.fault.value.after == 0 {
        assert BytesOf(e) == [] && [] + Bytes(rest) == Bytes(rest);
        SpoilsNeedsCut(log);
        assert [] + Whole(rest) == Whole(rest);
      } else if e.cause.Reply? {
        PartFirst(log);
        if |log| == 2 { LastSpoilsNothing(rest); }
      } else {
        ShapedAt(log, 0);
        assert rest == [];
        BytesNothing();
        PartOnly(e.message, e.fault.value.after);
        assert BytesOf(e) + [] == BytesOf(e);
        SpoilsNeedsCut(log);
        NeverSpoiled();
        assert Whole(rest) == [];
      }
    }
  }

  lemma Prepended(m: Message, a: seq<Message>, b: seq<Message>)
    ensures [m] + a == [m] + b <==> a == b
  {
    assert ([m] + a)[1..] == a && ([m] + b)[1..] == b;
  }

  lemma NeverSpoiled()
    ensures !Spoiled([])
  {
  }

  lemma LastSpoilsNothing(log: seq<Sent>)
    requires |log| == 1
    ensures !Spoiled(log)
  {
  }

  lemma SpoilsNeedsCut(log: seq<Sent>)
    requires log != []
    ensures !Cut(log[0]) || log[0].fault.value.after == 0 || !log[0].cause.Reply? ==> !Spoils(log, 0)
  {
  }

  /** Over every run of the servant, whatever fails: the client receives the messages that
      got out as a whole, in order and nothing else, exactly if behind every reply of which
      some bytes but not all got out nothing completes a frame. */
  lemma ReceivedExactly(d: Dispatcher, weather: seq<Weather>, k: nat, s: seq<Byte>)
    requires ShortLog(Serve(d, weather, k, s).log)
    ensures var log := Serve(d, weather, k, s).log;
      ParseAll(Bytes(log)).0 == Whole(log) <==> !exists i: nat :: Spoils(log, i)
  {
    hide Serve, Bytes, ParseAll, Whole, Spoils, Shaped, ShortLog;
    ServeShaped(d, weather, k, s);
    ReceivedFromLog(Serve(d, weather, k, s).log);
  }

  /** One request whose reply is cut: what is sent, and that the client receives the
      exception, and only that, exactly if no byte of the reply got out. */
  lemma OneCutReply(d: Dispatcher, request: Message, reply: Message, cut: nat, error: seq<Byte>)
    requires request.id != [] && |request.id| < LIMIT && |request.body| < LIMIT
    requires |reply.id| < LIMIT && |reply.body| < LIMIT
    requires AnswerTo(d, 0, request) == Result(reply) && cut < |Frame(reply)|
    requires |ExceptionMessage(WRITE_FAILED + error).body| < LIMIT
    ensures var e := ExceptionMessage(WRITE_FAILED + error);
      var log := Serve(d, [Weather(None, Some(Fault(cut, error)), None)], 0, Frame(request)).log;
      && log == [Sent(Reply(request), reply, Some(Fault(cut, error))), Sent(FailedReply(request), e, None)]
      && Bytes(log) == Frame(reply)[..cut] + Frame(e)
      && (ParseAll(Bytes(log)).0 == [e] <==> cut == 0)
  {
    hide Parse, AnswerTo, Serve, Frame, ParseAll, ExceptionMessage;
    var w := Weather(None, Some(Fault(cut, error)), None);
    var e := ExceptionMessage(WRITE_FAILED + error);
    var first, second := Sent(Reply(request), reply, w.reply), Sent(FailedReply(request), e, None);
    assert Frame(request) + [] == Frame(request);
    ParseFrame(request, [], []);
    assert Parse(Frame(request), []) == Reading(Received(request), []);
    assert Now([w]) == w && Later([w]) == [];
    ServeStep(d, [w], 0, Frame(request));
    ServeNothing(d, [], 1);
    TextIsText(error);
    assert Try(d, w, 0, Frame(request)) == Tried([first], [], 1, Threw(FailedReply(request), WRITE_FAILED + error));
    var log := Serve(d, [w], 0, Frame(request)).log;
    assert log == [first] + [second] + [];
    assert log == [first, second];
    BytesFirst(log);
    BytesFirst(log[1..]);
    BytesNothing();
    assert BytesOf(second) + [] == Frame(e);
    if cut == 0 {
      assert Bytes(log) == Frame(e) + [];
      ParseFrame(e, [], []);
      AllStep(Bytes(log));
      NothingLeft();
      assert ParseAll(Bytes(log)).0 == [e] + [];
    } else {
      SpoiledByWhole(reply, cut, e, [], []);
      assert Frame(e) + [] == Frame(e) && [e] + [] == [e];
    }
  }

  lemma NothingLeft()
    ensures ParseAll([]).0 == []
  {
    ClosedExactly([], []);
  }

  lemma TextIsText(error: seq<Byte>)
    ensures IsText(ExceptionMessage(WRITE_FAILED + error))
  {
    assert (WRITE_FAILED + error)[0] == WRITE_FAILED[0] == 67;
  }

  /** A module "x" whose replies are all [2, 3], and a request for it. */
  const TWO_THREE := Message([1], [2, 3])

  function OneModule(): Dispatcher {
    map[[120] := Some((k, m) => Replied(TWO_THREE))]
  }

  const ASK := Message(MAMMUT + [DOT] + ([120] + [DOT] + [121]), [])

  lemma AskIsAnswered()
    ensures AnswerTo(OneModule(), 0, ASK) == Result(TWO_THREE)
    ensures ASK.id != [] && |ASK.id| < LIMIT && ASK.body == []
  {
    hide ModuleName, Ascii;
    assert Names(ASK.id, [120], [121], [121]);
    ModuleNameExactly(ASK.id, [120]);
    MammutFree();
  }

  /** A run in which the client receives a message that was never sent: of a reply all
      bytes but the last get out, and the exception behind it begins with 0. */
  lemma NeverSent(error: seq<Byte>)
    requires |ExceptionMessage(WRITE_FAILED + error).body| < LIMIT
    ensures var log := Serve(OneModule(), [Weather(None, Some(Fault(10, error)), None)], 0, Frame(ASK)).log;
      && Messages(log) == [TWO_THREE, ExceptionMessage(WRITE_FAILED + error)]
      && Parse(Bytes(log), []).outcome == Received(Message([1], [2, 0]))
  {
    hide Serve, Bytes, OneModule, ASK, AnswerTo, ExceptionMessage, Parse, Length32;
    var e := ExceptionMessage(WRITE_FAILED + error);
    AskIsAnswered();
    TextIsText(error);
    PlainFrame(e);
    assert |Frame(TWO_THREE)| == 11;
    OneCutReply(OneModule(), ASK, TWO_THREE, 10, error);
    CutFrameIsFilled(TWO_THREE, 10, Frame(e));
    assert Frame(e)[..1] == [0] && [2, 3][..1] == [2] && [2] + [0] == [2, 0];
  }
}
