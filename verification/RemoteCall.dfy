/** Remote calls of several client threads over one communicator (communicator.cpp,
    mammut-server.cpp), as steps of the clients and of the servant.  What the servant
    answers is what its loop answers; requests and replies are sent as a whole, and replies
    are read as bytes, by reads that can fail. */
module RemoteCall {
  import opened Framing
  import opened Options
  import S = Servant

  /** The n-th call of a client. */
  datatype Call = Call(client: nat, n: nat)

  /** The modules of the server, and what each call asks for. */
  datatype World = World(dispatcher: S.Dispatcher, request: Call -> Message)

  /** A reply.  Nothing in its frame says what it answers; `origin` is what the servant
      was processing. */
  datatype Reply = Reply(origin: Call, message: Message)

  datatype Phase = Idle | Locked | Waiting

  datatype Client = Client(phase: Phase, calls: nat)

  datatype Servant = Receiving | Processing(call: Call, number: nat) | Ended

  /** How a call ends: with a message, whatever that is, with the end of the stream, or
      since a read failed.  Whether the message is an exception, of the wrong type or
      cannot be parsed is looked at after the lock has been released. */
  datatype Ending = Got(message: Message) | NoReply | ReadFailed

  /** A finished call, and how many bytes had been read before it. */
  datatype Finished = Finished(call: Call, from: nat, ending: Ending)

  datatype State = State(
    lock: Option<nat>,
    clients: map<nat, Client>,
    toServer: seq<Call>,
    toClient: seq<Byte>,
    servant: Servant,
    taken: seq<Call>,        // requests the servant has received, in order
    sent: seq<Reply>,        // its replies, in order
    read: nat,               // bytes that the clients have read
    finished: seq<Finished>) // calls that have ended, in order

  datatype Action =
    | Begin(c: nat)                  // take the lock
    | Send(c: nat)
    | Receive(c: nat)                // a message, or the end of the stream; release the lock
    | FailRead(c: nat, after: nat)   // a read fails after some bytes; release the lock
    | Take                           // the servant receives a request
    | Answer                         // it sends a result or an exception, or gives up
    | End                            // the connection fails

  predicate Enabled(s: State, a: Action) {
    match a
    case Begin(c) => c in s.clients && s.clients[c].phase.Idle? && s.lock.None?
    case Send(c) => c in s.clients && s.clients[c].phase.Locked?
    case Receive(c) =>
      && c in s.clients && s.clients[c].phase.Waiting?
      && (Parse(s.toClient, []).outcome.Received? || s.servant.Ended?)
    case FailRead(c, _) => c in s.clients && s.clients[c].phase.Waiting?
    case Take => s.servant.Receiving? && s.toServer != []
    case Answer => s.servant.Processing?
    case End => !s.servant.Ended?
  }

  /** The call of client c ends, and leaves some of the stream. */
  function Finish(s: State, c: nat, ending: Ending, rest: seq<Byte>): State
    requires c in s.clients && |rest| <= |s.toClient|
  {
    var call := Call(c, s.clients[c].calls);
    s.(lock := None, clients := s.clients[c := Client(Idle, s.clients[c].calls + 1)],
       toClient := rest, read := s.read + (|s.toClient| - |rest|),
       finished := s.finished + [Finished(call, s.read, ending)])
  }

  function Next(w: World, s: State, a: Action): State
    requires Enabled(s, a)
  {
    match a
    case Begin(c) => s.(lock := Some(c), clients := s.clients[c := s.clients[c].(phase := Locked)])
    case Send(c) =>
      s.(clients := s.clients[c := s.clients[c].(phase := Waiting)],
         toServer := s.toServer + [Call(c, s.clients[c].calls)])
    case Receive(c) =>
      var r := Parse(s.toClient, []);
      if r.outcome.Received? then Finish(s, c, Got(r.outcome.m), r.rest) else Finish(s, c, NoReply, [])
    case FailRead(c, after) => Finish(s, c, ReadFailed, S.Unread(s.toClient, after))
    case Take =>
      s.(servant := Processing(s.toServer[0], |s.taken|), toServer := s.toServer[1..],
         taken := s.taken + [s.toServer[0]])
    case Answer =>
      var call, k := s.servant.call, s.servant.number;
      if S.AnswerTo(w.dispatcher, k, w.request(call)).Fatal? then s.(servant := Ended)
      else
        var reply := Reply(call, S.ReplyTo(w.dispatcher, k, w.request(call)));
        s.(servant := Receiving, toClient := s.toClient + Frame(reply.message), sent := s.sent + [reply])
    case End => s.(servant := Ended)
  }

  function IdleClients(n: nat): (m: map<nat, Client>)
    ensures forall c :: c in m ==> m[c] == Client(Idle, 0)
    ensures forall c: nat :: c in m <==> c < n
  {
    if n == 0 then map[] else IdleClients(n - 1)[n - 1 := Client(Idle, 0)]
  }

  function Start(n: nat): State {
    State(None, IdleClients(n), [], [], Receiving, [], [], 0, [])
  }

  datatype Trace = Empty | Step(before: Trace, action: Action)

  /** The state after a trace of enabled steps; None when a step was not. */
  function Run(w: World, n: nat, t: Trace): Option<State> {
    match t
    case Empty => Some(Start(n))
    case Step(before, a) =>
      match Run(w, n, before)
      case None => None
      case Some(s) => if Enabled(s, a) then Some(Next(w, s, a)) else None
  }

  // ---------------------------------------------------------------------
  // The stream of replies

  function Contents(replies: seq<Reply>): (ms: seq<Message>)
    ensures |ms| == |replies|
  {
    seq(|replies|, k requires 0 <= k < |replies| => replies[k].message)
  }

  function Wire(replies: seq<Reply>): seq<Byte> {
    Frames(Contents(replies))
  }

  /** Where the frame of the i-th reply begins. */
  function Place(replies: seq<Reply>, i: nat): nat
    requires i <= |replies|
  {
    |Wire(replies[..i])|
  }

  lemma WireSnoc(replies: seq<Reply>, r: Reply)
    ensures Wire(replies + [r]) == Wire(replies) + Frame(r.message)
  {
    FramesSnoc(Contents(replies), r.message);
    assert Contents(replies + [r]) == Contents(replies) + [r.message];
  }

  lemma {:induction false} FramesSplit(a: seq<Message>, b: seq<Message>)
    ensures Frames(a + b) == Frames(a) + Frames(b)
  {
    hide Frame;
    if a == [] {
      assert a + b == b;
    } else {
      assert (a + b)[1..] == a[1..] + b;
      FramesSplit(a[1..], b);
      assert Frame(a[0]) + (Frames(a[1..]) + Frames(b)) == (Frame(a[0]) + Frames(a[1..])) + Frames(b);
    }
  }

  lemma WireSplit(replies: seq<Reply>, i: nat)
    requires i <= |replies|
    ensures Place(replies, i) <= |Wire(replies)| && Wire(replies)[Place(replies, i)..] == Wire(replies[i..])
  {
    hide Frames;
    FramesSplit(Contents(replies[..i]), Contents(replies[i..]));
    assert Contents(replies) == Contents(replies[..i]) + Contents(replies[i..]);
  }

  lemma PlaceNext(replies: seq<Reply>, i: nat)
    requires i < |replies|
    ensures Place(replies, i + 1) == Place(replies, i) + |Frame(replies[i].message)|
    ensures |Frame(replies[i].message)| >= 8
  {
    assert replies[..i + 1] == replies[..i] + [replies[i]];
    WireSnoc(replies[..i], replies[i]);
  }

  ghost predicate ShortSent(s: State) {
    forall i :: 0 <= i < |s.sent| ==> |s.sent[i].message.id| < LIMIT && |s.sent[i].message.body| < LIMIT
  }

  /** What a reader makes of the stream from the beginning of a reply. */
  lemma ReadInStep(s: State, i: nat)
    requires ShortSent(s) && i <= |s.sent|
    ensures Parse(Wire(s.sent[i..]), []) ==
            if i == |s.sent| then Reading(Closed, []) else Reading(Received(s.sent[i].message), Wire(s.sent[i + 1..]))
  {
    hide Parse, Frame;
    if i == |s.sent| {
      assert Contents(s.sent[i..]) == [];
      FramesNothing();
      ClosedExactly([], []);
    } else {
      var m, rest := s.sent[i].message, Contents(s.sent[i + 1..]);
      assert Contents(s.sent[i..]) == [m] + rest;
      assert ([m] + rest)[1..] == rest;
      ParseFrame(m, Frames(rest), []);
    }
  }

  // ---------------------------------------------------------------------
  // The invariants

  ghost predicate Busy(s: State) {
    s.lock.Some? && s.lock.value in s.clients && s.clients[s.lock.value].phase.Waiting?
  }

  /** Only the client that holds the lock is in a call. */
  ghost predicate LockInv(s: State) {
    && (forall c :: c in s.clients ==> (s.clients[c].phase.Idle? <==> s.lock != Some(c)))
    && (s.lock.Some? ==> s.lock.value in s.clients)
  }

  /** The requests are those of the finished calls and of the one under way. */
  ghost predicate AskedInv(s: State) {
    && |s.taken| + |s.toServer| == |s.finished| + (if Busy(s) then 1 else 0)
    && (forall i :: 0 <= i < |s.finished| ==> (s.taken + s.toServer)[i] == s.finished[i].call)
    && (Busy(s) ==> (s.taken + s.toServer)[|s.finished|] == Call(s.lock.value, s.clients[s.lock.value].calls))
  }

  /** What the servant does with a request that it received as number k. */
  predicate Answered(w: World, k: nat, call: Call, r: Reply) {
    && !S.AnswerTo(w.dispatcher, k, w.request(call)).Fatal?
    && r == Reply(call, S.ReplyTo(w.dispatcher, k, w.request(call)))
  }

  /** What the servant has received and what it has answered. */
  ghost predicate Served(w: World, s: State) {
    && |s.sent| <= |s.taken|
    && (forall k :: 0 <= k < |s.sent| ==> Answered(w, k, s.taken[k], s.sent[k]))
    && (s.servant.Receiving? ==> |s.taken| == |s.sent|)
    && (s.servant.Processing? ==>
          |s.taken| == |s.sent| + 1 && s.servant == Processing(s.taken[|s.sent|], |s.sent|))
  }

  /** What has not been read of the replies is in the channel. */
  ghost predicate StreamInv(s: State) {
    s.read <= |Wire(s.sent)| && s.toClient == Wire(s.sent)[s.read..]
  }

  ghost predicate Inv(w: World, s: State) {
    LockInv(s) && AskedInv(s) && Served(w, s) && StreamInv(s)
  }

  lemma FinishKeeps(w: World, s: State, c: nat, ending: Ending, rest: seq<Byte>, at: nat)
    requires Inv(w, s) && Busy(s) && s.lock == Some(c) && at <= |s.toClient| && rest == s.toClient[at..]
    ensures Inv(w, Finish(s, c, ending, rest))
  {
    hide Served, Wire;
    var next := Finish(s, c, ending, rest);
    assert Wire(s.sent)[s.read..][at..] == Wire(s.sent)[s.read + at..];
    assert Served(w, next) by { ServedFrame(w, s, next); }
  }

  lemma ServedFrame(w: World, s: State, t: State)
    requires Served(w, s) && t.sent == s.sent && t.taken == s.taken && t.servant == s.servant
    ensures Served(w, t)
  {
    hide Answered;
  }

  lemma AnswerKeeps(w: World, s: State)
    requires Inv(w, s) && s.servant.Processing?
    ensures Inv(w, Next(w, s, Answer))
  {
    hide S.AnswerTo, S.ReplyTo, Wire;
    var next := Next(w, s, Answer);
    if next.servant.Receiving? {
      var k := |s.sent|;
      assert next.sent[..k] == s.sent && Answered(w, k, s.taken[k], next.sent[k]);
      WireSnoc(s.sent, next.sent[k]);
      assert Wire(next.sent)[s.read..] == Wire(s.sent)[s.read..] + Frame(next.sent[k].message);
    }
  }

  lemma TakeKeeps(w: World, s: State)
    requires Inv(w, s) && Enabled(s, Take)
    ensures Inv(w, Next(w, s, Take))
  {
    hide Answered, Wire;
    var next := Next(w, s, Take);
    assert next.taken + next.toServer == s.taken + s.toServer;
  }

  lemma SendKeeps(w: World, s: State, c: nat)
    requires Inv(w, s) && Enabled(s, Send(c))
    ensures Inv(w, Next(w, s, Send(c)))
  {
    hide Served, Wire;
    var next := Next(w, s, Send(c));
    assert next.taken + next.toServer == s.taken + s.toServer + [Call(c, s.clients[c].calls)];
    assert Served(w, next) by { ServedFrame(w, s, next); }
  }

  /** What a call reads is the beginning of the stream. */
  lemma ReadsAhead(s: State, a: Action) returns (at: nat)
    requires Enabled(s, a) && (a.Receive? || a.FailRead?)
    ensures at <= |s.toClient|
    ensures a.Receive? && Parse(s.toClient, []).outcome.Received? ==> Parse(s.toClient, []).rest == s.toClient[at..]
    ensures a.Receive? && !Parse(s.toClient, []).outcome.Received? ==> s.toClient[at..] == []
    ensures a.FailRead? ==> S.Unread(s.toClient, a.after) == s.toClient[at..]
  {
    var r := Parse(s.toClient, []);
    var most := if r.outcome.Received? then |s.toClient| - |r.rest| - 1 else |s.toClient|;
    at := if a.FailRead? then (if a.after <= most then a.after else most)
          else if r.outcome.Received? then |s.toClient| - |r.rest| else |s.toClient|;
  }

  lemma NextKeepsInv(w: World, s: State, a: Action)
    requires Inv(w, s) && Enabled(s, a)
    ensures Inv(w, Next(w, s, a))
  {
    hide Answered, Wire, Parse, S.Unread, S.AnswerTo, S.ReplyTo;
    match a
    case Begin(c) =>
    case Send(c) => SendKeeps(w, s, c);
    case Receive(c) =>
      var at := ReadsAhead(s, a);
      var r := Parse(s.toClient, []);
      FinishKeeps(w, s, c, if r.outcome.Received? then Got(r.outcome.m) else NoReply, s.toClient[at..], at);
    case FailRead(c, _) =>
      var at := ReadsAhead(s, a);
      FinishKeeps(w, s, c, ReadFailed, s.toClient[at..], at);
    case Take => TakeKeeps(w, s);
    case Answer => AnswerKeeps(w, s);
    case End =>
  }

  // ---------------------------------------------------------------------
  // Being in step

  /** The first i calls have got messages. */
  ghost predicate AllGot(s: State, i: nat)
    requires i <= |s.finished|
  {
    forall j :: 0 <= j < i ==> s.finished[j].ending.Got?
  }

  /** How many bytes have been read before the i-th call. */
  function From(s: State, i: nat): nat
    requires i <= |s.finished|
  {
    if i < |s.finished| then s.finished[i].from else s.read
  }

  /** The i-th call reads from where the i-th reply begins. */
  ghost predicate InStep(s: State, i: nat)
    requires i <= |s.finished|
  {
    i <= |s.sent| && From(s, i) == Place(s.sent, i)
  }

  /** Not all of the i-th reply has been read before the next call. */
  ghost predicate Behind(s: State, i: nat)
    requires i < |s.finished|
  {
    From(s, i + 1) <= |Wire(s.sent)| && (i < |s.sent| ==> From(s, i + 1) < Place(s.sent, i + 1))
  }

  /** The call gets the i-th reply, or leaves the next one behind. */
  ghost predicate EndsWell(s: State, i: nat)
    requires i < |s.finished|
  {
    if s.finished[i].ending.Got? then i < |s.sent| && s.finished[i].ending.message == s.sent[i].message
    else Behind(s, i)
  }

  /** As long as calls get messages, each gets the one that answers it; the first one that
      does not leaves the next behind. */
  ghost predicate StepInv(s: State) {
    && (forall i :: 0 <= i <= |s.finished| && AllGot(s, i) ==> InStep(s, i))
    && (forall i :: 0 <= i < |s.finished| && AllGot(s, i) ==> EndsWell(s, i))
  }

  lemma AnswerKeepsStep(s: State, t: State, r: Reply)
    requires StepInv(s) && t.finished == s.finished && t.read == s.read && t.sent == s.sent + [r]
    ensures StepInv(t)
  {
    hide Wire, Frame;
    WireSnoc(s.sent, r);
    assert |Frame(r.message)| >= 8 by { FrameSize(r.message); }
    forall i | 0 <= i <= |s.sent|
      ensures Place(t.sent, i) == Place(s.sent, i)
    {
      assert t.sent[..i] == s.sent[..i];
    }
    PlaceNext(t.sent, |s.sent|);
    assert s.sent[..|s.sent|] == s.sent;
    forall i | 0 <= i <= |t.finished|
      ensures AllGot(t, i) == AllGot(s, i) && From(t, i) == From(s, i)
    {
    }
    forall i | 0 <= i <= |t.finished| && AllGot(t, i)
      ensures InStep(t, i)
    {
      assert InStep(s, i);
    }
    forall i | 0 <= i < |t.finished| && AllGot(t, i)
      ensures EndsWell(t, i)
    {
      assert EndsWell(s, i);
    }
  }

  lemma FrameSize(m: Message)
    ensures |Frame(m)| == 8 + |m.id| + |m.body|
  {
  }

  /** The calls that have ended keep what they got, and where. */
  lemma FinishKeepsOld(s: State, t: State, f: Finished)
    requires StepInv(s) && t.finished == s.finished + [f] && f.from == s.read && t.sent == s.sent
    ensures forall i :: 0 <= i <= |s.finished| ==> AllGot(t, i) == AllGot(s, i) && From(t, i) == From(s, i)
    ensures forall i :: 0 <= i <= |s.finished| && AllGot(t, i) ==> InStep(t, i)
    ensures forall i :: 0 <= i < |s.finished| && AllGot(t, i) ==> EndsWell(t, i)
  {
    hide Wire, Place;
    forall i | 0 <= i <= |s.finished|
      ensures AllGot(t, i) == AllGot(s, i) && From(t, i) == From(s, i)
    {
      assert forall j :: 0 <= j < |s.finished| ==> t.finished[j] == s.finished[j];
    }
    forall i | 0 <= i <= |s.finished| && AllGot(t, i)
      ensures InStep(t, i)
    {
      assert InStep(s, i);
    }
    forall i | 0 <= i < |s.finished| && AllGot(t, i)
      ensures EndsWell(t, i)
    {
      assert EndsWell(s, i);
    }
  }

  /** What a call in step makes of the stream: its own reply, to the end of it, if that has
      been sent. */
  ghost predicate ReadsOwn(s: State) {
    var k, r := |s.finished|, Parse(s.toClient, []);
    if k >= |s.sent| then r == Reading(Closed, [])
    else
      && r.outcome == Received(s.sent[k].message)
      && s.read + (|s.toClient| - |r.rest|) == Place(s.sent, k + 1)
  }

  lemma InStepReads(s: State)
    requires StreamInv(s) && ShortSent(s) && InStep(s, |s.finished|)
    ensures ReadsOwn(s)
  {
    hide Wire, Parse;
    var k := |s.finished|;
    WireSplit(s.sent, k);
    ReadInStep(s, k);
    if k < |s.sent| { WireSplit(s.sent, k + 1); }
  }

  lemma FinishKeepsStep(w: World, s: State, a: Action)
    requires Inv(w, s) && StepInv(s) && ShortSent(s) && Enabled(s, a) && (a.Receive? || a.FailRead?)
    ensures StepInv(Next(w, s, a))
  {
    hide Wire, Place, Parse, S.Unread, AskedInv, Served, LockInv, InStep, Behind, AllGot;
    var t, k := Next(w, s, a), |s.finished|;
    FinishKeepsOld(s, t, t.finished[k]);
    if AllGot(t, k) {
      InStepReads(s);
      LastStep(w, s, a);
    }
    MoreGot(t, k);
  }

  lemma MoreGot(t: State, k: nat)
    requires k < |t.finished|
    ensures AllGot(t, k + 1) <==> AllGot(t, k) && t.finished[k].ending.Got?
  {
  }

  /** The call that ends now. */
  lemma LastStep(w: World, s: State, a: Action)
    requires StreamInv(s) && InStep(s, |s.finished|) && ReadsOwn(s)
    requires Enabled(s, a) && (a.Receive? || a.FailRead?)
    ensures |Next(w, s, a).finished| == |s.finished| + 1 && EndsWell(Next(w, s, a), |s.finished|)
    ensures Next(w, s, a).finished[|s.finished|].ending.Got? ==> InStep(Next(w, s, a), |s.finished| + 1)
  {
    hide Wire, Place, Parse;
  }

  lemma NextKeepsStep(w: World, s: State, a: Action)
    requires Inv(w, s) && StepInv(s) && ShortSent(s) && Enabled(s, a)
    ensures StepInv(Next(w, s, a))
  {
    hide Wire, Place, Parse, S.AnswerTo, S.ReplyTo, Inv, StepInv;
    var t := Next(w, s, a);
    if a.Receive? || a.FailRead? {
      FinishKeepsStep(w, s, a);
    } else if a.Answer? && t.servant.Receiving? {
      AnswerKeepsStep(s, t, t.sent[|s.sent|]);
    } else {
      SameStep(s, t);
    }
  }

  lemma SameStep(s: State, t: State)
    requires StepInv(s) && t.finished == s.finished && t.read == s.read && t.sent == s.sent
    ensures StepInv(t)
  {
    hide Wire, Place;
    forall i | 0 <= i <= |t.finished|
      ensures AllGot(t, i) == AllGot(s, i) && InStep(t, i) == InStep(s, i)
      ensures i < |t.finished| ==> Behind(t, i) == Behind(s, i)
    {
    }
  }

  lemma SentGrows(w: World, s: State, a: Action)
    requires Enabled(s, a)
    ensures s.sent <= Next(w, s, a).sent
  {
    hide S.AnswerTo, S.ReplyTo, Parse, S.Unread, Frame;
  }

  lemma {:induction false} RunKeeps(w: World, n: nat, t: Trace)
    requires Run(w, n, t).Some?
    ensures Inv(w, Run(w, n, t).value)
    ensures ShortSent(Run(w, n, t).value) ==> StepInv(Run(w, n, t).value)
  {
    hide Inv, StepInv, Next, Enabled;
    match t
    case Empty => StartKeeps(w, n);
    case Step(before, a) =>
      RunKeeps(w, n, before);
      var s := Run(w, n, before).value;
      NextKeepsInv(w, s, a);
      SentGrows(w, s, a);
      if ShortSent(Next(w, s, a)) {
        NextKeepsStep(w, s, a);
      }
  }

  lemma StartKeeps(w: World, n: nat)
    ensures Inv(w, Start(n)) && StepInv(Start(n))
  {
  }

  // ---------------------------------------------------------------------
  // The theorems

  /** In every interleaving: a call before which all others got a message gets the
      servant's answer to its own request, whether that is a result, an exception or of a
      type it did not expect, or it gets none. */
  lemma EachCallGetsItsReply(w: World, n: nat, t: Trace, i: nat)
    requires Run(w, n, t).Some? && ShortSent(Run(w, n, t).value) && i < |Run(w, n, t).value.finished|
    requires AllGot(Run(w, n, t).value, i)
    ensures var s := Run(w, n, t).value;
      var f := s.finished[i];
      f.ending.Got? ==>
        i < |s.sent| && f.ending.message == s.sent[i].message && Answered(w, i, f.call, s.sent[i])
  {
    hide Run, Answered, Wire, Place;
    RunKeeps(w, n, t);
    var s := Run(w, n, t).value;
    if s.finished[i].ending.Got? {
      assert (s.taken + s.toServer)[i] == s.finished[i].call;
      assert (s.taken + s.toServer)[i] == s.taken[i];
    }
  }

  /** When calls stay in step: if all calls up to one read from where their own replies
      begin, the next one does exactly if that one got a message.  After a read that
      failed it never does, whatever had been read by then. */
  lemma InStepExactly(w: World, n: nat, t: Trace, i: nat)
    requires Run(w, n, t).Some? && ShortSent(Run(w, n, t).value) && i < |Run(w, n, t).value.finished|
    requires AllGot(Run(w, n, t).value, i)
    ensures InStep(Run(w, n, t).value, i)
    ensures InStep(Run(w, n, t).value, i + 1) <==> Run(w, n, t).value.finished[i].ending.Got?
  {
    hide Run, Inv, Wire, Place;
    RunKeeps(w, n, t);
    var s := Run(w, n, t).value;
    MoreGot(s, i);
    if !s.finished[i].ending.Got? {
      assert EndsWell(s, i);
      NotInStep(s, i);
    }
  }

  lemma NotInStep(s: State, i: nat)
    requires i < |s.finished| && Behind(s, i)
    ensures !InStep(s, i + 1)
  {
  }

  /** The requests as messages. */
  function Requests(w: World, calls: seq<Call>): seq<Message> {
    seq(|calls|, k requires 0 <= k < |calls| => w.request(calls[k]))
  }

  /** The servant of the steps is that of the code: on the frames of the requests that
      it has answered, its loop writes the frames of the replies that were sent. */
  lemma LoopSendsTheReplies(w: World, n: nat, t: Trace)
    requires Run(w, n, t).Some?
    ensures var s := Run(w, n, t).value;
      && |s.sent| <= |s.taken|
      && var requests := Requests(w, s.taken[..|s.sent|]);
      Short(requests) ==> S.Bytes(S.Serve(w.dispatcher, [], 0, Frames(requests)).log) == Wire(s.sent)
  {
    hide Run, LockInv, AskedInv, StreamInv, Frame, S.Serve, S.Bytes, S.AnswerTo, S.ReplyTo, ParseAll;
    RunKeeps(w, n, t);
    var s := Run(w, n, t).value;
    var requests := Requests(w, s.taken[..|s.sent|]);
    if Short(requests) {
      SequenceRoundTrip(requests);
      forall k | 0 <= k < |requests|
        ensures S.Smooth(w.dispatcher, S.CALM, 0 + k, requests[k])
      {
        assert Answered(w, k, s.taken[k], s.sent[k]);
      }
      S.UndisturbedReplies(w.dispatcher, [], Frames(requests));
      assert S.Replies(w.dispatcher, Frames(requests)) == Contents(s.sent);
    }
  }

  /** After calls that all got messages nothing is left in the channels for the next
      one. */
  lemma NothingLeftOver(w: World, n: nat, t: Trace)
    requires Run(w, n, t).Some? && ShortSent(Run(w, n, t).value) && Run(w, n, t).value.lock.None?
    requires AllGot(Run(w, n, t).value, |Run(w, n, t).value.finished|)
    ensures var s := Run(w, n, t).value; s.toClient == [] && s.toServer == []
  {
    hide Run, AllGot, Answered;
    RunKeeps(w, n, t);
    var s := Run(w, n, t).value;
    assert InStep(s, |s.finished|);
    assert s.sent[..|s.sent|] == s.sent;
  }

  /** As long as calls get messages none can hang: whoever holds the lock can go on, or
      the servant can. */
  lemma NeverStuck(w: World, n: nat, t: Trace) returns (a: Action)
    requires Run(w, n, t).Some? && ShortSent(Run(w, n, t).value) && Run(w, n, t).value.lock.Some?
    requires AllGot(Run(w, n, t).value, |Run(w, n, t).value.finished|)
    ensures Enabled(Run(w, n, t).value, a) && !a.End? && !a.FailRead?
  {
    hide Run, AllGot, Answered, Parse, Wire, Place;
    RunKeeps(w, n, t);
    var s := Run(w, n, t).value;
    var c := s.lock.value;
    if s.clients[c].phase.Locked? {
      a := Send(c);
    } else {
      InStepReads(s);
      if |s.sent| > |s.finished| || s.servant.Ended? {
        a := Receive(c);
      } else if s.servant.Processing? {
        a := Answer;
      } else {
        a := Take;
      }
    }
  }

  // ---------------------------------------------------------------------
  // The end of a servant

  function Continued(t: Trace, more: seq<Action>): Trace {
    if more == [] then t else Step(Continued(t, more[..|more| - 1]), more[|more| - 1])
  }

  /** Whatever happens after the end of the connection, the servant takes no request and
      sends nothing any more. */
  lemma {:induction false} EndIsFinal(w: World, n: nat, t: Trace, more: seq<Action>)
    requires Run(w, n, Continued(Step(t, End), more)).Some?
    ensures Run(w, n, t).Some?
    ensures var s, last := Run(w, n, t).value, Run(w, n, Continued(Step(t, End), more)).value;
      last.servant.Ended? && last.sent == s.sent && last.taken == s.taken
  {
    if more != [] {
      EndIsFinal(w, n, t, more[..|more| - 1]);
    }
  }
}
