/** Runs of remote calls in which calls do not get their own replies: after a read that
    failed, and without the lock (communicator.cpp). */
module OutOfStep {
  import opened Framing
  import opened Options
  import opened RemoteCall
  import S = Servant

  lemma RunStep(w: World, n: nat, before: Trace, s: State, a: Action)
    requires Run(w, n, before) == Some(s) && Enabled(s, a)
    ensures Run(w, n, Step(before, a)) == Some(Next(w, s, a))
  {
  }

  /** A request of client 0, from taking the lock to waiting for the reply. */
  lemma Asks(w: World, n: nat, before: Trace, s: State) returns (t: Trace, s': State)
    requires Run(w, n, before) == Some(s) && 0 in s.clients && s.lock.None? && s.clients[0].phase.Idle?
    ensures Run(w, n, t) == Some(s')
    ensures s' == s.(lock := Some(0), clients := s.clients[0 := Client(Waiting, s.clients[0].calls)],
                     toServer := s.toServer + [Call(0, s.clients[0].calls)])
  {
    hide Run;
    RunStep(w, n, before, s, Begin(0));
    var s1 := Next(w, s, Begin(0));
    t := Step(Step(before, Begin(0)), Send(0));
    RunStep(w, n, Step(before, Begin(0)), s1, Send(0));
    s' := Next(w, s1, Send(0));
  }

  /** What the servant answers as number k. */
  function Reply0(w: World, k: nat, call: Call): Message {
    S.ReplyTo(w.dispatcher, k, w.request(call))
  }

  /** The servant receives a request and answers it. */
  lemma Serves(w: World, n: nat, before: Trace, s: State, call: Call) returns (t: Trace, s': State)
    requires Run(w, n, before) == Some(s) && s.servant.Receiving? && s.toServer == [call]
    requires !S.AnswerTo(w.dispatcher, |s.taken|, w.request(call)).Fatal?
    ensures Run(w, n, t) == Some(s')
    ensures var m := Reply0(w, |s.taken|, call);
      s' == s.(toServer := [], toClient := s.toClient + Frame(m), taken := s.taken + [call],
               sent := s.sent + [Reply(call, m)])
  {
    hide Run, S.AnswerTo, S.ReplyTo, Frame;
    RunStep(w, n, before, s, Take);
    var s1 := Next(w, s, Take);
    t := Step(Step(before, Take), Answer);
    RunStep(w, n, Step(before, Take), s1, Answer);
    s' := Next(w, s1, Answer);
  }

  /** A client whose read fails before the reply is there gets it as the reply to its next
      request. */
  lemma WrongReply(w: World, n: nat) returns (t: Trace)
    requires n > 0 && !S.AnswerTo(w.dispatcher, 0, w.request(Call(0, 0))).Fatal?
    requires |Reply0(w, 0, Call(0, 0)).id| < LIMIT && |Reply0(w, 0, Call(0, 0)).body| < LIMIT
    ensures Run(w, n, t).Some?
    ensures Run(w, n, t).value.finished ==
            [Finished(Call(0, 0), 0, ReadFailed), Finished(Call(0, 1), 0, Got(Reply0(w, 0, Call(0, 0))))]
  {
    hide Run, S.AnswerTo, S.ReplyTo, Frame, Parse, IdleClients;
    var m := Reply0(w, 0, Call(0, 0));
    var s0 := Start(n);
    assert Run(w, n, Empty) == Some(s0) by { RunNothing(w, n); }
    assert 0 in IdleClients(n);
    var t1, s1 := Asks(w, n, Empty, s0);
    ClosedExactly([], []);
    var fail := FailRead(0, 0);
    RunStep(w, n, t1, s1, fail);
    var t2, s2 := Step(t1, fail), Next(w, s1, fail);
    assert s2.toServer == [Call(0, 0)] && s2.toClient == [] && s2.finished == [Finished(Call(0, 0), 0, ReadFailed)];
    var t3, s3 := Serves(w, n, t2, s2, Call(0, 0));
    assert s3.toClient == Frame(m) + [];
    var t4, s4 := Asks(w, n, t3, s3);
    ParseFrame(m, [], []);
    RunStep(w, n, t4, s4, Receive(0));
    t := Step(t4, Receive(0));
  }

  lemma RunNothing(w: World, n: nat)
    ensures Run(w, n, Empty) == Some(Start(n))
  {
  }

  /** No thread can go on by itself. */
  ghost predicate Stuck(s: State) {
    s.lock.Some? && forall a :: Enabled(s, a) ==> a.End? || a.FailRead?
  }

  /** A server without modules, and empty requests. */
  function Nobody(): World {
    World(map[], call => Message([], []))
  }

  const TEXT: seq<Byte> := [87, 114, 111, 110, 103, 32, 109, 101, 115, 115, 97, 103, 101, 32, 105, 100, 58, 32]

  lemma NobodyAnswers(k: nat, call: Call)
    ensures !S.AnswerTo(Nobody().dispatcher, k, Nobody().request(call)).Fatal?
    ensures Reply0(Nobody(), k, call) == Message([], TEXT)
  {
    var text := S.Ascii("Wrong message id: ");
    assert text == TEXT;
    assert TEXT + [] == TEXT;
    S.UntilFound(TEXT, TEXT, 0);
  }

  lemma TextFrame()
    ensures Frame(Message([], TEXT)) == [0, 0, 0, 0, 0, 0, 0, 18] + TEXT
  {
  }

  /** A read fails when all but four bytes of a reply have been read.  The next call takes
      these for a length and waits, with the lock, for more bytes than will ever come. */
  lemma WaitsForever(n: nat) returns (t: Trace)
    requires n > 0
    ensures Run(Nobody(), n, t).Some? && Stuck(Run(Nobody(), n, t).value)
  {
    hide Run, S.AnswerTo, S.ReplyTo, Frame, Parse, IdleClients, Nobody, TEXT, ReadLength;
    var w, m := Nobody(), Message([], TEXT);
    RunNothing(w, n);
    assert 0 in IdleClients(n);
    NobodyAnswers(0, Call(0, 0));
    NobodyAnswers(1, Call(0, 1));
    TextFrame();
    TextLength();
    var t1, s1 := Asks(w, n, Empty, Start(n));
    var t2, s2 := Serves(w, n, t1, s1, Call(0, 0));
    assert s2.toClient == Frame(m) + [];
    ParseFrame(m, [], []);
    var fail := FailRead(0, 22);
    RunStep(w, n, t2, s2, fail);
    var t3, s3 := Step(t2, fail), Next(w, s2, fail);
    assert s3.toClient == Frame(m)[22..] == TEXT[14..];
    var t4, s4 := Asks(w, n, t3, s3);
    var t5, s5 := Serves(w, n, t4, s4, Call(0, 1));
    assert s5.toClient == TEXT[14..] + Frame(m);
    HugeLength(TEXT[14..] + Frame(m));
    t := t5;
  }

  lemma TextLength()
    ensures |TEXT| == 18 && TEXT[14..] == [105, 100, 58, 32]
  {
  }

  lemma HugeLength(s: seq<Byte>)
    requires 4 <= |s| <= 100 && s[..4] == [105, 100, 58, 32]
    ensures !Parse(s, []).outcome.Received?
  {
    assert ReadLength(s[..4]) > 100;
  }

  /** Without the lock calls would not stay in step: with two requests under way a client receives
      the answer to the other's. */
  lemma WithoutTheLock(w: World)
    requires !S.AnswerTo(w.dispatcher, 0, w.request(Call(0, 0))).Fatal?
    requires |Reply0(w, 0, Call(0, 0)).id| < LIMIT && |Reply0(w, 0, Call(0, 0)).body| < LIMIT
    ensures var s := State(Some(0), map[0 := Client(Waiting, 0), 1 := Client(Waiting, 0)],
                           [Call(0, 0), Call(1, 0)], [], Receiving, [], [], 0, []);
      && Enabled(s, Take) && Enabled(Next(w, s, Take), Answer)
      && var s2 := Next(w, Next(w, s, Take), Answer);
      && Enabled(s2, Receive(1))
      && Next(w, s2, Receive(1)).finished == [Finished(Call(1, 0), 0, Got(Reply0(w, 0, Call(0, 0))))]
  {
    hide S.AnswerTo, S.ReplyTo, Parse, Frame;
    var s := State(Some(0), map[0 := Client(Waiting, 0), 1 := Client(Waiting, 0)],
                   [Call(0, 0), Call(1, 0)], [], Receiving, [], [], 0, []);
    var s2 := Next(w, Next(w, s, Take), Answer);
    var m := Reply0(w, 0, Call(0, 0));
    assert s2.toClient == Frame(m) + [];
    ParseFrame(m, [], []);
  }
}
