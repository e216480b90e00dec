/** A thread that opens or closes a device gets the events lock (core.c, io.c): whatever
    the others are doing, they can finish it and give the lock up, woken from their poll
    by the control pipe and told by pollfd_modify not to poll again. */
module ModifierProgress {
  import opened EventProtocol
  import opened Options

  /** A move of another thread that depends on nothing outside.  A dedicated handler has
      dispatched its events and asks libusb_event_handling_ok; a poll returns since the
      control pipe is readable. */
  predicate Helps(t: nat, s: State, m: Move) {
    && m.t != t && m.t < |s.pc|
    && if s.pc[m.t] == Dispatch(true) then m.a.PollAgain? else m.a.Internal?
  }

  /** `longer` is b and then only such moves. */
  ghost predicate Helped(t: nat, b: Behaviour, longer: Behaviour) {
    && b.states <= longer.states && b.moves <= longer.moves && |longer.states| == |longer.moves| + 1
    && forall i :: |b.moves| <= i < |longer.moves| ==> Helps(t, longer.states[i], longer.moves[i])
  }

  /** An upper bound on the steps of the holder of the events lock to its release. */
  function ReleaseRank(p: PC): nat {
    match p
    case Release => 1
    case Deactivate => 2
    case Dispatch(_) => 3
    case ModifyDec => 3
    case Polling(_) => 4
    case CheckCompleted(_) => 5
    case Activate(_) => 6
    case BackendClose(_) => 4
    case BroadcastUnlock(k) => AfterRank(k)
    case BroadcastSend(k) => AfterRank(k) + 1
    case BroadcastLock(k) => AfterRank(k) + 2
    case CloseRelease(f) => if f then 1 else 8
    case CloseDeactivate(f) => if f then 2 else 9
    case CloseRemove(f) => if f then 3 else 10
    case CloseActivate(f) => if f then 4 else 11
    case CloseLock(_) => 12
    case ModifyRead(_) => 13
    case ModifyActivate(_) => 14
    case _ => 0
  }

  function AfterRank(k: After): nat {
    if k.ThenDispatch? then 4 else 5
  }

  /** The same for the holder of event_waiters_lock. */
  function FreeRank(s: State): nat {
    if s.sh.waiters.None? || s.sh.waiters.value >= |s.pc| then 0 else HolderFreeRank(s.pc[s.sh.waiters.value])
  }

  function HolderFreeRank(p: PC): nat {
    if p.BroadcastSend? then 2 else HolderRank(p)
  }

  function HelpAction(p: PC): Action {
    if p == Dispatch(true) then PollAgain else Internal
  }

  /** What the holder of the events lock needs in order to move. */
  predicate Ready(v: nat, p: PC, sh: Shared) {
    && HoldDepth(p) > 0 && HoldsAs(v, p, sh) && sh.owner == Some(v) && sh.depth > 0
    && sh.pollfdModify > 0 && sh.pipe > 0
    && (p.BroadcastLock? ==> sh.waiters.None?)
  }

  lemma ReleaseRankFalls(v: nat, p: PC, seen: bool, sh: Shared)
    requires Ready(v, p, sh)
    ensures Local(v, p, seen, sh, HelpAction(p)).Some?
    ensures var e := Local(v, p, seen, sh, HelpAction(p)).value;
      e.sh.owner.None? || (e.sh.owner == Some(v) && ReleaseRank(e.pc) < ReleaseRank(p))
  {
    if OnEventsLock(p) && !p.Dispatch? {
      LockSideReleases(v, p, seen, sh);
    }
  }

  lemma LockSideReleases(v: nat, p: PC, seen: bool, sh: Shared)
    requires Ready(v, p, sh) && OnEventsLock(p) && !p.Dispatch?
    ensures LockSide(v, p, seen, sh).Some?
    ensures var e := LockSide(v, p, seen, sh).value;
      e.sh.owner.None? || (e.sh.owner == Some(v) && ReleaseRank(e.pc) < ReleaseRank(p))
  {
  }

  lemma FreeRankFalls(w: nat, p: PC, seen: bool, sh: Shared)
    requires HoldsWaiters(p) && sh.waiters == Some(w)
    ensures HolderFreeRank(p) > 0 && Local(w, p, seen, sh, Internal).Some?
    ensures var e := Local(w, p, seen, sh, Internal).value;
      && e.sh == sh.(waiters := e.sh.waiters)
      && (e.sh.waiters.None? || (e.sh.waiters == sh.waiters && HolderFreeRank(e.pc) < HolderFreeRank(p)))
  {
  }

  /** Thread t waits for the events lock after its write to the control pipe. */
  ghost predicate Waits(s: State, t: nat, closing: bool) {
    Inv(s) && t < |s.pc| && s.pc[t] == ModifyLock(closing)
  }

  /** How far the holder of the events lock is from giving it up, and the holder of the
      waiters' lock from doing the same. */
  function Distance(s: State): (nat, nat) {
    (if s.sh.owner.None? || s.sh.owner.value >= |s.pc| then 0 else 1 + ReleaseRank(s.pc[s.sh.owner.value]), FreeRank(s))
  }

  ghost predicate Nearer(s': State, s: State) {
    Distance(s').0 < Distance(s).0 || (Distance(s').0 == Distance(s).0 && Distance(s').1 < Distance(s).1)
  }

  /** The holder of the lock moves, unless it needs event_waiters_lock. */
  lemma OwnerNears(s: State, t: nat, closing: bool) returns (m: Move, s': State)
    requires Waits(s, t, closing) && s.sh.owner.Some? && s.sh.owner.value < |s.pc|
    requires s.pc[s.sh.owner.value].BroadcastLock? ==> s.sh.waiters.None?
    ensures Moves(s, m, s') && Helps(t, s, m)
    ensures Waits(s', t, closing) && Nearer(s', s)
  {
    hide Local, Inv, ReleaseRank, HolderRank;
    var v := s.sh.owner.value;
    OwnerIsOther(s, t);
    var seen, a := s.watch[v] && s.done[v], HelpAction(s.pc[v]);
    ReleaseRankFalls(v, s.pc[v], seen, s.sh);
    m := Move(v, a);
    s' := Apply(s, v, Local(v, s.pc[v], seen, s.sh, a).value);
    InvStep(s, v, a);
  }

  /** The holder of event_waiters_lock moves when that of the lock needs it. */
  lemma WaiterNears(s: State, t: nat, closing: bool) returns (m: Move, s': State)
    requires Waits(s, t, closing) && s.sh.owner.Some? && s.sh.owner.value < |s.pc|
    requires s.pc[s.sh.owner.value].BroadcastLock? && s.sh.waiters.Some?
    ensures Moves(s, m, s') && Helps(t, s, m)
    ensures Waits(s', t, closing) && Nearer(s', s)
  {
    hide Local, Inv, ReleaseRank, HolderFreeRank, HoldDepth, HoldsWaiters;
    var w := s.sh.waiters.value;
    OwnerIsOther(s, t);
    WaitersHolder(s, t, w);
    var seen := s.watch[w] && s.done[w];
    FreeRankFalls(w, s.pc[w], seen, s.sh);
    m := Move(w, Internal);
    s' := Apply(s, w, Local(w, s.pc[w], seen, s.sh, Internal).value);
    InvStep(s, w, Internal);
  }

  /** While the lock is held, some other thread has a move that brings its release
      nearer. */
  lemma Nearing(s: State, t: nat, closing: bool) returns (m: Move, s': State)
    requires Waits(s, t, closing) && s.sh.owner.Some?
    ensures Moves(s, m, s') && Helps(t, s, m)
    ensures Waits(s', t, closing) && Nearer(s', s)
  {
    hide Inv, Moves, Helps, Nearer;
    OwnerIsOther(s, t);
    if s.pc[s.sh.owner.value].BroadcastLock? && s.sh.waiters.Some? {
      m, s' := WaiterNears(s, t, closing);
    } else {
      m, s' := OwnerNears(s, t, closing);
    }
  }

  lemma OwnerIsOther(s: State, t: nat)
    requires Inv(s) && t < |s.pc| && s.pc[t].ModifyLock? && s.sh.owner.Some?
    ensures var v := s.sh.owner.value;
      && v < |s.pc| && v != t && HoldDepth(s.pc[v]) > 0 && HoldsAs(v, s.pc[v], s.sh)
    ensures s.Shaped() && s.sh.depth > 0 && s.sh.pollfdModify > 0 && s.sh.pipe > 0
  {
    assert HoldsAs(t, s.pc[t], s.sh);
    assert HoldsAs(s.sh.owner.value, s.pc[s.sh.owner.value], s.sh);
    CountMember(InSection, s.pc, t);
    CountMember(WroteNotRead, s.pc, t);
  }

  lemma WaitersHolder(s: State, t: nat, w: nat)
    requires Inv(s) && t < |s.pc| && s.pc[t].ModifyLock? && s.sh.waiters == Some(w)
    requires s.sh.owner.Some? && s.sh.owner.value < |s.pc| && s.pc[s.sh.owner.value].BroadcastLock?
    ensures w < |s.pc| && w != t && w != s.sh.owner.value && HoldsWaiters(s.pc[w])
  {
    assert HoldsWaiters(s.pc[w]) <==> s.sh.waiters == Some(w);
  }

  /** From every state of every behaviour, failed writes included: if a thread waits for
      the events lock in order to open or close a device, the moves of others alone can
      bring it to the point where the lock is free for it to take. */
  lemma {:induction false} ModifierGetsTheLock(n: nat, b: Behaviour, t: nat, closing: bool) returns (longer: Behaviour)
    requires Behaves(n, b) && t < |b.states[|b.moves|].pc| && b.states[|b.moves|].pc[t] == ModifyLock(closing)
    ensures Behaves(n, longer) && Helped(t, b, longer)
    ensures var s := longer.states[|longer.moves|];
      s.Shaped() && t < |s.pc| && s.pc[t] == ModifyLock(closing) && s.sh.owner.None? && CanMove(s, t)
    decreases Distance(b.states[|b.moves|]).0, Distance(b.states[|b.moves|]).1
  {
    hide Inv, Moves, Helps, Next;
    assert |b.states| == |b.moves| + 1;
    BehaviourInv(n, b, |b.moves|);
    var s := b.states[|b.moves|];
    longer := b;
    if s.sh.owner.Some? {
      var m, s' := Nearing(s, t, closing);
      var next := OneMore(n, t, b, m, s');
      longer := ModifierGetsTheLock(n, next, t, closing);
      HelpedOn(t, b, next, longer);
    } else {
      TakesIt(s, t);
    }
  }

  lemma TakesIt(s: State, t: nat)
    requires Inv(s) && t < |s.pc| && s.pc[t].ModifyLock? && s.sh.owner.None?
    ensures s.Shaped() && CanMove(s, t)
  {
  }

  lemma OneMore(n: nat, t: nat, b: Behaviour, m: Move, s: State) returns (c: Behaviour)
    requires Behaves(n, b) && Moves(b.states[|b.moves|], m, s) && Helps(t, b.states[|b.moves|], m)
    ensures c == Behaviour(b.states + [s], b.moves + [m]) && Behaves(n, c) && Helped(t, b, c)
  {
    hide Moves, Helps;
    c := Behaviour(b.states + [s], b.moves + [m]);
    forall i | 0 <= i < |c.moves|
      ensures Moves(c.states[i], c.moves[i], c.states[i + 1])
    {
      if i < |b.moves| {
        assert Moves(b.states[i], b.moves[i], b.states[i + 1]);
      }
    }
  }

  lemma HelpedOn(t: nat, a: Behaviour, b: Behaviour, c: Behaviour)
    requires Helped(t, a, b) && Helped(t, b, c)
    ensures Helped(t, a, c)
  {
    hide Helps;
    forall i | |a.moves| <= i < |c.moves|
      ensures Helps(t, c.states[i], c.moves[i])
    {
      if i < |b.moves| {
        assert Helps(t, b.states[i], b.moves[i]);
        assert b.states[i] == c.states[i] && b.moves[i] == c.moves[i];
      }
    }
  }
}
