/** What each thread does with its operations in the protocol (io.c, core.c), over every
    run: a thread in libusb_handle_events that gets the lock handles events or has its flag
    set, and comes back only after that or after a wait; completions are announced, handles
    closed before libusb_close returns; and there are runs in which threads poll and
    wait. */
module EventHandling {
  import opened EventProtocol
  import opened FailedWrites
  import opened Options

  /** From its i-th move up to state k thread t is in the operation that it started with
      that move. */
  ghost predicate InOperation(n: nat, b: Behaviour, t: nat, i: nat, k: nat, start: Action) {
    && Behaves(n, b) && t < n && i < k < |b.states| && b.moves[i] == Move(t, start)
    && forall j :: i < j < k ==> b.moves[j].t == t ==> !Starts(b.moves[j].a)
  }

  predicate Starts(a: Action) {
    a.StartHandle? || a.StartLock? || a.StartOpen? || a.StartClose?
  }

  predicate Owns(s: State, t: nat) {
    s.sh.owner == Some(t)
  }

  /** Thread t has seen, or can see, its completed flag. */
  predicate FlagSet(s: State, t: nat) {
    s.Shaped() && t < |s.pc| && s.watch[t] && s.done[t]
  }

  predicate Handling(s: State, t: nat) {
    t < |s.pc| && InHandleEvents(s.pc[t])
  }

  /** Thread t holds the events lock from after its j-th move up to state k, and gives it
      up in the next one. */
  ghost predicate Holds(b: Behaviour, t: nat, j: nat, k: nat) {
    && j < k && k + 1 < |b.states| && !Owns(b.states[j], t) && !Owns(b.states[k + 1], t)
    && forall m :: j < m <= k ==> Owns(b.states[m], t)
  }

  /** Has the lock, and nothing has been decided. */
  predicate Fresh(p: PC, dedicated: bool) {
    p == Activate(dedicated) || p == CheckCompleted(dedicated)
  }

  lemma Unmoved(n: nat, b: Behaviour, m: nat, t: nat)
    requires Behaves(n, b) && m < |b.moves| && t < n && b.moves[m].t != t
    ensures |b.states[m].pc| == |b.states[m + 1].pc| == n
    ensures b.states[m + 1].pc[t] == b.states[m].pc[t] || (b.states[m].pc[t].Asleep? && b.states[m + 1].pc[t].Woken?)
    ensures Owns(b.states[m + 1], t) <==> Owns(b.states[m], t)
  {
    hide Inv, Local;
    BehaviourInv(n, b, m);
    BehaviourInv(n, b, m + 1);
    MoveAt(n, b, m);
    var s, s', u := b.states[m], b.states[m + 1], b.moves[m].t;
    OwnersHold(s, t);
    OwnersHold(s', t);
  }

  /** Who owns the lock shows in the program counter. */
  lemma OwnersHold(s: State, t: nat)
    requires Inv(s) && t < |s.pc|
    ensures Owns(s, t) <==> HoldDepth(s.pc[t]) > 0
  {
    assert HoldsAs(t, s.pc[t], s.sh);
  }

  lemma Moved(n: nat, b: Behaviour, m: nat)
    requires Behaves(n, b) && m < |b.moves|
    ensures var s, t := b.states[m], b.moves[m].t;
      && s.Shaped() && |s.pc| == |b.states[m + 1].pc| == n && t < n
      && var e := Local(t, s.pc[t], s.watch[t] && s.done[t], s.sh, b.moves[m].a);
      e.Some? && b.states[m + 1].pc[t] == e.value.pc
  {
    hide Inv, Local;
    BehaviourInv(n, b, m);
    BehaviourInv(n, b, m + 1);
    MoveAt(n, b, m);
  }

  predicate Broadcasts(p: PC, k: After) {
    p == BroadcastLock(k) || p == BroadcastSend(k) || p == BroadcastUnlock(k)
  }

  /** Where a thread can be in libusb_handle_events, or, with `dedicated`, between
      libusb_lock_events and libusb_unlock_events. */
  predicate Inside(p: PC, dedicated: bool) {
    || (if dedicated then p.LockEvents? else p.TryModify? || p.TryLock? || Waiting(p))
    || Fresh(p, dedicated) || p == Polling(dedicated) || p == Dispatch(dedicated) || p.Deactivate? || p.Release?
    || Broadcasts(p, ThenDispatch(dedicated)) || Broadcasts(p, ThenIdle) || p.Idle?
  }

  /** One step inside; the lock is got with nothing decided. */
  lemma LocalInside(t: nat, p: PC, seen: bool, sh: Shared, a: Action, dedicated: bool)
    requires Inside(p, dedicated) && !Starts(a) && Local(t, p, seen, sh, a).Some?
    ensures StepsInside(p, Local(t, p, seen, sh, a).value.pc, dedicated)
  {
    if ByItself(p, a) {
      if OnEventsLock(p) {
        LockSideInside(t, p, seen, sh, dedicated);
      } else {
        WaitSideInside(t, p, seen, sh, dedicated);
      }
    }
  }

  predicate StepsInside(p: PC, q: PC, dedicated: bool) {
    Inside(q, dedicated) && (HoldDepth(p) == 0 && HoldDepth(q) > 0 ==> Fresh(q, dedicated))
  }

  lemma LockSideInside(t: nat, p: PC, seen: bool, sh: Shared, dedicated: bool)
    requires Inside(p, dedicated) && LockSide(t, p, seen, sh).Some?
    ensures StepsInside(p, LockSide(t, p, seen, sh).value.pc, dedicated)
  {
    hide StepsInside;
    InsideOnLock(t, p, seen, sh, dedicated);
    if p.TryModify? || p.TryLock? || p.LockEvents? {
      GettingInside(t, p, seen, sh, dedicated);
    } else if p.Deactivate? || p.Release? {
      GivingInside(t, p, seen, sh, dedicated);
    } else {
      HavingInside(t, p, seen, sh, dedicated);
    }
  }

  lemma InsideOnLock(t: nat, p: PC, seen: bool, sh: Shared, dedicated: bool)
    requires Inside(p, dedicated) && LockSide(t, p, seen, sh).Some?
    ensures || p.TryModify? || p.TryLock? || p.LockEvents? || p.Deactivate? || p.Release?
            || p == Activate(dedicated) || p == CheckCompleted(dedicated) || p == Polling(dedicated)
  {
  }

  lemma GettingInside(t: nat, p: PC, seen: bool, sh: Shared, dedicated: bool)
    requires (p.TryModify? || p.TryLock? || p.LockEvents?) && Inside(p, dedicated) && LockSide(t, p, seen, sh).Some?
    ensures StepsInside(p, LockSide(t, p, seen, sh).value.pc, dedicated)
  {
  }

  lemma GivingInside(t: nat, p: PC, seen: bool, sh: Shared, dedicated: bool)
    requires (p.Deactivate? || p.Release?) && LockSide(t, p, seen, sh).Some?
    ensures StepsInside(p, LockSide(t, p, seen, sh).value.pc, dedicated)
  {
  }

  lemma HavingInside(t: nat, p: PC, seen: bool, sh: Shared, dedicated: bool)
    requires p == Activate(dedicated) || p == CheckCompleted(dedicated) || p == Polling(dedicated)
    requires LockSide(t, p, seen, sh).Some?
    ensures StepsInside(p, LockSide(t, p, seen, sh).value.pc, dedicated)
  {
  }

  lemma WaitSideInside(t: nat, p: PC, seen: bool, sh: Shared, dedicated: bool)
    requires Inside(p, dedicated) && WaitSide(t, p, seen, sh).Some?
    ensures StepsInside(p, WaitSide(t, p, seen, sh).value.pc, dedicated)
  {
  }

  /** One step of a thread with nothing decided. */
  lemma LocalFresh(t: nat, p: PC, seen: bool, sh: Shared, a: Action, dedicated: bool)
    requires Fresh(p, dedicated) && Local(t, p, seen, sh, a).Some?
    ensures var q := Local(t, p, seen, sh, a).value.pc; Fresh(q, dedicated) || InHandleEvents(q) || seen
  {
  }

  predicate Opens(start: Action, dedicated: bool) {
    if dedicated then start.StartLock? else start.StartHandle?
  }

  /** Throughout the operation the thread is inside it. */
  lemma {:induction false} StaysInside(n: nat, b: Behaviour, t: nat, i: nat, k: nat, start: Action, dedicated: bool)
    requires InOperation(n, b, t, i, k, start) && Opens(start, dedicated)
    ensures |b.states[k].pc| == n && Inside(b.states[k].pc[t], dedicated)
    decreases k
  {
    hide Local, Inside;
    Moved(n, b, k - 1);
    if k - 1 == i {
      StartInside(t, b.states[i].pc[t], b.states[i].watch[t] && b.states[i].done[t], b.states[i].sh, start, dedicated);
    } else {
      StaysInside(n, b, t, i, k - 1, start, dedicated);
      var s := b.states[k - 1];
      if b.moves[k - 1].t == t {
        LocalInside(t, s.pc[t], s.watch[t] && s.done[t], s.sh, b.moves[k - 1].a, dedicated);
      } else {
        Unmoved(n, b, k - 1, t);
        if s.pc[t].Asleep? { WokenInside(dedicated); }
      }
    }
  }

  lemma StartInside(t: nat, p: PC, seen: bool, sh: Shared, start: Action, dedicated: bool)
    requires Opens(start, dedicated) && Local(t, p, seen, sh, start).Some?
    ensures Inside(Local(t, p, seen, sh, start).value.pc, dedicated)
  {
  }

  lemma WokenInside(dedicated: bool)
    ensures Inside(Asleep, dedicated) ==> Inside(Woken, dedicated)
  {
  }

  /** Between getting the lock and state k the thread has handled events or its flag was
      set. */
  ghost predicate Decided(b: Behaviour, t: nat, j: nat, k: nat) {
    exists m :: j < m <= k && m < |b.states| && (Handling(b.states[m], t) || FlagSet(b.states[m], t))
  }

  /** When the lock is got nothing is decided. */
  lemma GetsFresh(n: nat, b: Behaviour, t: nat, i: nat, j: nat, start: Action, dedicated: bool)
    requires InOperation(n, b, t, i, j + 1, start) && Opens(start, dedicated) && i < j
    requires !Owns(b.states[j], t) && Owns(b.states[j + 1], t)
    ensures |b.states[j + 1].pc| == n && Fresh(b.states[j + 1].pc[t], dedicated)
  {
    hide Local, Inside, Inv, Owns, HoldDepth, Fresh;
    BehaviourInv(n, b, j);
    BehaviourInv(n, b, j + 1);
    OwnersHold(b.states[j], t);
    OwnersHold(b.states[j + 1], t);
    Moved(n, b, j);
    var s := b.states[j];
    if b.moves[j].t != t {
      Unmoved(n, b, j, t);
    } else {
      StaysInside(n, b, t, i, j, start, dedicated);
      LocalInside(t, s.pc[t], s.watch[t] && s.done[t], s.sh, b.moves[j].a, dedicated);
    }
  }

  /** Until something is decided the lock is held with nothing decided. */
  lemma {:induction false} FreshUntil(n: nat, b: Behaviour, t: nat, i: nat, j: nat, m: nat,
                                      start: Action, dedicated: bool)
    requires InOperation(n, b, t, i, m, start) && Opens(start, dedicated) && i < j < m
    requires !Owns(b.states[j], t) && forall l :: j < l <= m ==> Owns(b.states[l], t)
    ensures |b.states[m].pc| == n && (Decided(b, t, j, m) || Fresh(b.states[m].pc[t], dedicated))
    decreases m
  {
    hide Local, Inside, Inv, Owns, Opens, Handling, FlagSet;
    if m - 1 == j {
      GetsFresh(n, b, t, i, j, start, dedicated);
    } else {
      FreshUntil(n, b, t, i, j, m - 1, start, dedicated);
      if b.moves[m - 1].t != t {
        Unmoved(n, b, m - 1, t);
        if Decided(b, t, j, m - 1) { DecidedStays(b, t, j, m - 1); }
      } else {
        FreshStep(n, b, t, j, m - 1, dedicated);
      }
    }
  }

  lemma DecidedStays(b: Behaviour, t: nat, j: nat, m: nat)
    requires Decided(b, t, j, m)
    ensures Decided(b, t, j, m + 1)
  {
    hide Handling, FlagSet;
    var l :| j < l <= m && l < |b.states| && (Handling(b.states[l], t) || FlagSet(b.states[l], t));
    assert j < l <= m + 1;
  }

  lemma FreshStep(n: nat, b: Behaviour, t: nat, j: nat, m: nat, dedicated: bool)
    requires Behaves(n, b) && j < m < |b.moves| && t < n && b.moves[m].t == t
    requires |b.states[m].pc| == n && (Decided(b, t, j, m) || Fresh(b.states[m].pc[t], dedicated))
    ensures |b.states[m + 1].pc| == n
    ensures Decided(b, t, j, m + 1) || Fresh(b.states[m + 1].pc[t], dedicated)
  {
    hide Local, Fresh, Handling, FlagSet;
    Moved(n, b, m);
    var s := b.states[m];
    if Decided(b, t, j, m) {
      var l :| j < l <= m && l < |b.states| && (Handling(b.states[l], t) || FlagSet(b.states[l], t));
      assert j < l <= m + 1;
    } else {
      LocalFresh(t, s.pc[t], s.watch[t] && s.done[t], s.sh, b.moves[m].a, dedicated);
      SeenIs(s, t);
      HandlingIs(b.states[m + 1], t);
      assert Handling(b.states[m + 1], t) ==> Decided(b, t, j, m + 1);
      assert !FlagSet(s, t);
    }
  }

  lemma SeenIs(s: State, t: nat)
    requires s.Shaped() && t < |s.pc|
    ensures FlagSet(s, t) <==> s.watch[t] && s.done[t]
  {
  }

  lemma HandlingIs(s: State, t: nat)
    requires t < |s.pc|
    ensures Handling(s, t) <==> InHandleEvents(s.pc[t])
  {
  }

  // ---------------------------------------------------------------------
  // The theorems

  /** In every run: a thread in libusb_handle_events that has got the events lock gives it
      up only after it has been inside handle_events, or after its completed flag was set
      while it held the lock. */
  lemma HandlesBeforeReleasing(n: nat, b: Behaviour, t: nat, i: nat, j: nat, k: nat, start: Action)
    requires start.StartHandle? && InOperation(n, b, t, i, k + 1, start) && i < j && Holds(b, t, j, k)
    ensures exists m :: j < m <= k && (Handling(b.states[m], t) || FlagSet(b.states[m], t))
  {
    DecidesBeforeReleasing(n, b, t, i, j, k, start, false);
  }

  /** The same for either way to get the lock. */
  lemma DecidesBeforeReleasing(n: nat, b: Behaviour, t: nat, i: nat, j: nat, k: nat, start: Action, dedicated: bool)
    requires Opens(start, dedicated) && InOperation(n, b, t, i, k + 1, start) && i < j && Holds(b, t, j, k)
    ensures exists m :: j < m <= k && (Handling(b.states[m], t) || FlagSet(b.states[m], t))
  {
    hide Local, Inside, Inv, Owns, Opens, Handling, FlagSet, Fresh;
    FreshUntil(n, b, t, i, j, k, start, dedicated);
    if !Decided(b, t, j, k) {
      if b.moves[k].t != t {
        Unmoved(n, b, k, t);
      } else {
        Moved(n, b, k);
        var s := b.states[k];
        LocalFresh(t, s.pc[t], s.watch[t] && s.done[t], s.sh, b.moves[k].a, dedicated);
        BehaviourInv(n, b, k + 1);
        OwnersHold(b.states[k + 1], t);
        FreshHolds(b.states[k + 1].pc[t], dedicated);
        SeenIs(s, t);
      }
    }
  }

  lemma FreshHolds(p: PC, dedicated: bool)
    ensures Fresh(p, dedicated) || InHandleEvents(p) ==> HoldDepth(p) > 0
  {
  }

  /** A thread that got the lock with libusb_lock_events is inside handle_events before it
      gives it up. */
  lemma PollsBeforeReleasing(n: nat, b: Behaviour, t: nat, i: nat, j: nat, k: nat)
    requires InOperation(n, b, t, i, k + 1, StartLock) && i < j && Holds(b, t, j, k)
    ensures exists m :: j < m <= k && Handling(b.states[m], t)
  {
    hide Local, Inside, Inv, Owns, Handling;
    DecidesBeforeReleasing(n, b, t, i, j, k, StartLock, true);
    var m :| j < m <= k && (Handling(b.states[m], t) || FlagSet(b.states[m], t));
    NotWatched(n, b, t, i, m);
    SeenIs(b.states[m], t);
  }

  lemma {:induction false} NotWatched(n: nat, b: Behaviour, t: nat, i: nat, m: nat)
    requires InOperation(n, b, t, i, m, StartLock)
    ensures b.states[m].Shaped() && t < |b.states[m].pc| && !b.states[m].watch[t]
    decreases m
  {
    hide Inv, Next, Behaves, Local;
    BehaviourLength(n, b);
    Moved(n, b, m - 1);
    MoveAt(n, b, m - 1);
    if m - 1 > i { NotWatched(n, b, t, i, m - 1); }
    WatchStep(b.states[m - 1], b.moves[m - 1].t, b.moves[m - 1].a, t);
  }

  lemma BehaviourLength(n: nat, b: Behaviour)
    requires Behaves(n, b)
    ensures |b.states| == |b.moves| + 1
  {
  }

  /** Whether a flag is watched is said when an operation starts. */
  lemma WatchStep(s: State, u: nat, a: Action, t: nat)
    requires s.Shaped() && u < |s.pc| && t < |s.pc| && Next(s, u, a).Some?
    requires if u == t then a.StartLock? || (!s.watch[t] && !Starts(a)) else !s.watch[t]
    ensures !Next(s, u, a).value.watch[t]
  {
    LocalWatch(u, s.pc[u], s.watch[u] && s.done[u], s.sh, a);
  }

  lemma LocalWatch(u: nat, p: PC, seen: bool, sh: Shared, a: Action)
    requires Local(u, p, seen, sh, a).Some?
    ensures var f := Local(u, p, seen, sh, a).value.flags;
      (f.Begin? ==> Starts(a)) && (a.StartLock? && p.Idle? ==> f.Begin? && !f.watch)
      && (a.StartLock? ==> p.Idle?)
  {
    if ByItself(p, a) {
      if OnEventsLock(p) { LockSideFlags(u, p, seen, sh); } else { WaitSideFlags(u, p, seen, sh); }
    }
  }

  lemma LockSideFlags(u: nat, p: PC, seen: bool, sh: Shared)
    ensures LockSide(u, p, seen, sh).Some? ==> LockSide(u, p, seen, sh).value.flags.Keep?
  {
  }

  lemma WaitSideFlags(u: nat, p: PC, seen: bool, sh: Shared)
    ensures WaitSide(u, p, seen, sh).Some? ==> WaitSide(u, p, seen, sh).value.flags.Keep?
  {
  }

  /** Before the lock and before a wait is over. */
  predicate Undecided(p: PC) {
    p.TryModify? || p.TryLock? || Fresh(p, false) || p.LockWaiters? || p.CheckDone? || p.CheckModify? || p.CheckActive?
    || p.RetryUnlock? || p.Sleep? || p.Asleep?
  }

  lemma LocalUndecided(t: nat, p: PC, seen: bool, sh: Shared, a: Action)
    requires Undecided(p) && Local(t, p, seen, sh, a).Some?
    ensures var q := Local(t, p, seen, sh, a).value.pc; Undecided(q) || InHandleEvents(q) || q.Woken? || seen
  {
  }

  /** Thread t has a reason to return from libusb_handle_events. */
  predicate Reason(s: State, t: nat) {
    Handling(s, t) || FlagSet(s, t) || (t < |s.pc| && s.pc[t].Woken?)
  }

  lemma {:induction false} UndecidedUntil(n: nat, b: Behaviour, t: nat, i: nat, m: nat, start: Action)
    requires start.StartHandle? && InOperation(n, b, t, i, m, start)
    ensures |b.states[m].pc| == n
    ensures Undecided(b.states[m].pc[t]) || exists l :: i < l <= m && Reason(b.states[l], t)
    decreases m
  {
    hide Local, Inv, Handling, FlagSet, Undecided;
    Moved(n, b, m - 1);
    var s := b.states[m - 1];
    if m - 1 == i {
      StartUndecided(t, s.pc[t], s.watch[t] && s.done[t], s.sh, start);
    } else {
      UndecidedUntil(n, b, t, i, m - 1, start);
      if Undecided(s.pc[t]) {
        HandlingIs(b.states[m], t);
        if b.moves[m - 1].t != t {
          Unmoved(n, b, m - 1, t);
        } else {
          LocalUndecided(t, s.pc[t], s.watch[t] && s.done[t], s.sh, b.moves[m - 1].a);
          SeenIs(s, t);
          assert FlagSet(s, t) ==> Reason(s, t);
        }
        assert Undecided(b.states[m].pc[t]) || Reason(s, t) || Reason(b.states[m], t);
      } else {
        var l :| i < l <= m - 1 && Reason(b.states[l], t);
        assert i < l <= m;
      }
    }
  }

  lemma StartUndecided(t: nat, p: PC, seen: bool, sh: Shared, start: Action)
    requires start.StartHandle? && Local(t, p, seen, sh, start).Some?
    ensures Undecided(Local(t, p, seen, sh, start).value.pc)
  {
  }

  /** libusb_handle_events returns only after it has handled events, seen its completed
      flag, or been woken from a wait. */
  lemma ReturnsForAReason(n: nat, b: Behaviour, t: nat, i: nat, k: nat, start: Action)
    requires start.StartHandle? && InOperation(n, b, t, i, k, start)
    requires t < |b.states[k].pc| && b.states[k].pc[t].Idle?
    ensures exists l :: i < l <= k && Reason(b.states[l], t)
  {
    hide Reason;
    UndecidedUntil(n, b, t, i, k, start);
  }

  // ---------------------------------------------------------------------
  // What is not done, and the way of libusb_open and libusb_close

  /** In every run: no thread whose completed flag is set goes into handle_events. */
  lemma SetFlagDoesNotPoll(n: nat, b: Behaviour, t: nat, m: nat)
    requires Behaves(n, b) && m < |b.moves| && t < n
    requires !Handling(b.states[m], t) && Handling(b.states[m + 1], t)
    ensures !FlagSet(b.states[m], t)
  {
    hide Local, Inv;
    if b.moves[m].t != t {
      Unmoved(n, b, m, t);
    } else {
      Moved(n, b, m);
      var s := b.states[m];
      EntersUnset(t, s.pc[t], s.watch[t] && s.done[t], s.sh, b.moves[m].a);
    }
  }

  lemma EntersUnset(t: nat, p: PC, seen: bool, sh: Shared, a: Action)
    requires Local(t, p, seen, sh, a).Some?
    requires !InHandleEvents(p) && InHandleEvents(Local(t, p, seen, sh, a).value.pc)
    ensures !seen
  {
    if ByItself(p, a) && OnEventsLock(p) {
      LockSideEnters(t, p, seen, sh);
    }
  }

  lemma LockSideEnters(t: nat, p: PC, seen: bool, sh: Shared)
    requires LockSide(t, p, seen, sh).Some?
    requires !InHandleEvents(p) && InHandleEvents(LockSide(t, p, seen, sh).value.pc)
    ensures !seen
  {
  }

  /** A thread leaves the places P only for one of the places R. */
  ghost predicate Leads(P: PC -> bool, R: PC -> bool) {
    && !P(Asleep)
    && forall u, p, seen, sh, a :: P(p) && Local(u, p, seen, sh, a).Some? ==>
         var q := Local(u, p, seen, sh, a).value.pc; P(q) || R(q)
  }

  /** In state k thread t is at one of the places P. */
  predicate At(b: Behaviour, t: nat, k: nat, P: PC -> bool) {
    k < |b.states| && t < |b.states[k].pc| && P(b.states[k].pc[t])
  }

  /** From state i on thread t is at the places P, until a move of its own takes it to one
      of R in state l. */
  ghost predicate Leaves(b: Behaviour, t: nat, i: nat, l: nat, P: PC -> bool, R: PC -> bool) {
    && i < l <= |b.moves| && b.moves[l - 1].t == t && At(b, t, l, R)
    && forall j :: i <= j < l ==> At(b, t, j, P)
  }

  /** The places P are left for one of R only. */
  lemma {:induction false} Until(n: nat, b: Behaviour, t: nat, i: nat, m: nat, P: PC -> bool, R: PC -> bool)
    requires Behaves(n, b) && t < n && i <= m < |b.states| && Leads(P, R) && At(b, t, i, P)
    ensures (forall j :: i <= j <= m ==> At(b, t, j, P)) || exists l :: i < l <= m && Leaves(b, t, i, l, P, R)
    decreases m
  {
    hide Local, Inv;
    if i < m {
      Until(n, b, t, i, m - 1, P, R);
      Moved(n, b, m - 1);
      if b.moves[m - 1].t != t { Unmoved(n, b, m - 1, t); }
      if forall j :: i <= j <= m - 1 ==> At(b, t, j, P) {
        assert At(b, t, m - 1, P);
        assert At(b, t, m, P) || Leaves(b, t, i, m, P, R);
      } else {
        var l :| i < l <= m - 1 && Leaves(b, t, i, l, P, R);
        assert i < l <= m;
      }
    }
  }

  /** The state in which a thread that is no longer at P came to one of R. */
  lemma Reaches(n: nat, b: Behaviour, t: nat, i: nat, m: nat, P: PC -> bool, R: PC -> bool) returns (l: nat)
    requires Behaves(n, b) && t < n && i <= m < |b.states| && Leads(P, R) && At(b, t, i, P) && !At(b, t, m, P)
    ensures i < l <= m && Leaves(b, t, i, l, P, R)
    ensures At(b, t, l, R) && At(b, t, l - 1, P) && b.moves[l - 1].t == t
  {
    hide Behaves, Leads;
    Until(n, b, t, i, m, P, R);
    l :| i < l <= m && Leaves(b, t, i, l, P, R);
  }

  predicate IsAsleep(p: PC) { p.Asleep? }

  predicate IsWoken(p: PC) { p.Woken? }

  predicate IsUnlocking(p: PC) { p.UnlockWaiters? }

  predicate IsIdle(p: PC) { p.Idle? }

  predicate IsRemoving(p: PC) { p.CloseRemove? }

  predicate IsClosing(p: PC) { p.BackendClose? }

  predicate IsOpening(p: PC) { p == ModifyActivate(false) || p.FailedDec? }

  predicate IsBroadcast(p: PC) { p.BroadcastUnlock? }

  lemma AgainComes()
    ensures Leads(IsWoken, IsUnlocking)
  {
  }

  lemma ReturnComes()
    ensures Leads(IsUnlocking, IsIdle)
  {
  }

  lemma UnlockingHolds(n: nat, b: Behaviour, t: nat, k: nat)
    requires Behaves(n, b) && k < |b.states| && t < |b.states[k].pc| && b.states[k].pc[t].UnlockWaiters?
    ensures b.states[k].sh.waiters == Some(t)
  {
    BehaviourInv(n, b, k);
    assert HoldsWaiters(b.states[k].pc[t]);
  }

  /** A wait can end at any moment: every run in which a thread sleeps goes on with a move
      that wakes it, and nobody else. */
  lemma WaitCanEnd(n: nat, b: Behaviour, t: nat) returns (longer: Behaviour)
    requires Behaves(n, b) && At(b, t, |b.moves|, IsAsleep)
    ensures Behaves(n, longer) && longer.moves == b.moves + [Move(t, External)]
    ensures |longer.states| == |b.states| + 1 && longer.states[..|b.states|] == b.states
    ensures At(longer, t, |b.states|, IsWoken)
    ensures forall u :: 0 <= u < n && u != t && At(b, u, |b.moves|, IsAsleep) ==> At(longer, u, |b.states|, IsAsleep)
  {
    hide Local, Inv;
    var s := b.states[|b.moves|];
    BehaviourInv(n, b, |b.moves|);
    InvShaped(s);
    LocalAsleep(t, s.watch[t] && s.done[t], s.sh);
    var s' := Next(s, t, External).value;
    longer := Behaviour(b.states + [s'], b.moves + [Move(t, External)]);
    forall i | 0 <= i < |longer.moves|
      ensures Moves(longer.states[i], longer.moves[i], longer.states[i + 1])
    {
      if i < |b.moves| { assert Moves(b.states[i], b.moves[i], b.states[i + 1]); }
    }
  }

  lemma InvShaped(s: State)
    requires Inv(s)
    ensures s.Shaped()
  {
  }

  lemma LocalAsleep(t: nat, seen: bool, sh: Shared)
    ensures Local(t, Asleep, seen, sh, External) == Go(Woken, sh)
  {
  }

  /** From state i thread t is woken, in state l it has the waiters lock, in m it is back. */
  ghost predicate Returns(b: Behaviour, t: nat, i: nat, l: nat, m: nat) {
    && Leaves(b, t, i, l, IsWoken, IsUnlocking) && Leaves(b, t, l, m, IsUnlocking, IsIdle)
    && l < |b.states| && b.states[l].sh.waiters == Some(t)
  }

  /** A thread that has been woken, for whatever reason, takes the waiters lock again and
      returns from its call: it neither looks nor polls once more. */
  lemma WokenReturns(n: nat, b: Behaviour, t: nat, i: nat, k: nat)
    requires Behaves(n, b) && t < n && i <= k < |b.states| && At(b, t, i, IsWoken)
    requires At(b, t, k, IsIdle)
    ensures exists l: nat, m: nat :: m <= k && Returns(b, t, i, l, m)
  {
    hide Leads, Behaves;
    AgainComes();
    ReturnComes();
    var l := Reaches(n, b, t, i, k, IsWoken, IsUnlocking);
    UnlockingHolds(n, b, t, l);
    var m := Reaches(n, b, t, l, k, IsUnlocking, IsIdle);
    assert Returns(b, t, i, l, m);
  }

  /** In libusb_close before the transfers of the handle are removed ... */
  predicate BeforeRemoval(p: PC) {
    || p == ModifyInc(true) || p == ModifyWrite(true) || p == ModifyLock(true) || p == ModifyActivate(true)
    || p == ModifyRead(true) || p.CloseLock? || p.CloseActivate?
  }

  /** ... and from then on until the backend closes it. */
  predicate BeforeBackend(p: PC) {
    || p.CloseRemove? || p.CloseDeactivate? || p.CloseRelease?
    || Broadcasts(p, ThenBackendClose(false)) || Broadcasts(p, ThenBackendClose(true))
  }

  /** In libusb_open before it has the events lock. */
  predicate BeforeOpening(p: PC) {
    p == ModifyInc(false) || p == ModifyWrite(false) || p == ModifyLock(false)
  }

  lemma RemovalComes()
    ensures Leads(BeforeRemoval, IsRemoving)
  {
    hide BeforeRemoval, Local;
    RemovalIsAwake();
    forall u, p, seen, sh, a | BeforeRemoval(p) && Local(u, p, seen, sh, a).Some?
      ensures var q := Local(u, p, seen, sh, a).value.pc; BeforeRemoval(q) || q.CloseRemove?
    {
      RemovalStep(u, p, seen, sh, a);
    }
  }

  lemma RemovalIsAwake()
    ensures !BeforeRemoval(Asleep)
  {
  }

  lemma RemovalStep(u: nat, p: PC, seen: bool, sh: Shared, a: Action)
    requires BeforeRemoval(p) && Local(u, p, seen, sh, a).Some?
    ensures var q := Local(u, p, seen, sh, a).value.pc; BeforeRemoval(q) || q.CloseRemove?
  {
    if ByItself(p, a) {
      RemovalLockSide(u, p, seen, sh);
    }
  }

  lemma RemovalLockSide(u: nat, p: PC, seen: bool, sh: Shared)
    requires BeforeRemoval(p) && LockSide(u, p, seen, sh).Some?
    ensures var q := LockSide(u, p, seen, sh).value.pc; BeforeRemoval(q) || q.CloseRemove?
  {
  }

  lemma BackendComes()
    ensures Leads(BeforeBackend, IsClosing)
  {
    hide BeforeBackend, Local;
    BackendIsAwake();
    forall u, p, seen, sh, a | BeforeBackend(p) && Local(u, p, seen, sh, a).Some?
      ensures var q := Local(u, p, seen, sh, a).value.pc; BeforeBackend(q) || q.BackendClose?
    {
      BackendStep(u, p, seen, sh, a);
    }
  }

  lemma BackendIsAwake()
    ensures !BeforeBackend(Asleep)
  {
  }

  lemma BackendStep(u: nat, p: PC, seen: bool, sh: Shared, a: Action)
    requires BeforeBackend(p) && Local(u, p, seen, sh, a).Some?
    ensures var q := Local(u, p, seen, sh, a).value.pc; BeforeBackend(q) || q.BackendClose?
  {
  }

  lemma OpeningComes()
    ensures Leads(BeforeOpening, IsOpening)
  {
    hide BeforeOpening, Local;
    OpeningIsAwake();
    forall u, p, seen, sh, a | BeforeOpening(p) && Local(u, p, seen, sh, a).Some?
      ensures var q := Local(u, p, seen, sh, a).value.pc; BeforeOpening(q) || q == ModifyActivate(false) || q.FailedDec?
    {
      OpeningStep(u, p, seen, sh, a);
    }
  }

  lemma OpeningIsAwake()
    ensures !BeforeOpening(Asleep)
  {
  }

  lemma OpeningStep(u: nat, p: PC, seen: bool, sh: Shared, a: Action)
    requires BeforeOpening(p) && Local(u, p, seen, sh, a).Some?
    ensures var q := Local(u, p, seen, sh, a).value.pc; BeforeOpening(q) || q == ModifyActivate(false) || q.FailedDec?
  {
    if ByItself(p, a) {
      OpeningLockSide(u, p, seen, sh);
    }
  }

  lemma OpeningLockSide(u: nat, p: PC, seen: bool, sh: Shared)
    requires BeforeOpening(p) && LockSide(u, p, seen, sh).Some?
    ensures var q := LockSide(u, p, seen, sh).value.pc; BeforeOpening(q) || q == ModifyActivate(false) || q.FailedDec?
  {
  }

  lemma FirstPlace(n: nat, b: Behaviour, t: nat, i: nat, k: nat, start: Action)
    requires InOperation(n, b, t, i, k, start) && (start.StartOpen? || start.StartClose?)
    ensures |b.states[i + 1].pc| == n && b.states[i + 1].pc[t] == ModifyInc(start.StartClose?)
  {
    hide Inv, Local;
    Moved(n, b, i);
    var s := b.states[i];
    LocalStarts(t, s.pc[t], s.watch[t] && s.done[t], s.sh, start);
  }

  lemma LocalStarts(t: nat, p: PC, seen: bool, sh: Shared, start: Action)
    requires (start.StartOpen? || start.StartClose?) && Local(t, p, seen, sh, start).Some?
    ensures Local(t, p, seen, sh, start).value.pc == ModifyInc(start.StartClose?)
  {
  }

  /** libusb_close returns only after it has removed the transfers of the handle, and after
      that closed it. */
  lemma ClosesBeforeReturning(n: nat, b: Behaviour, t: nat, i: nat, k: nat)
    requires InOperation(n, b, t, i, k, StartClose) && t < |b.states[k].pc| && b.states[k].pc[t].Idle?
    ensures exists l, m :: i < l < m <= k && t < |b.states[l].pc| && t < |b.states[m].pc|
              && b.states[l].pc[t].CloseRemove? && b.states[m].pc[t].BackendClose?
  {
    hide Leads, Local;
    RemovalComes();
    BackendComes();
    FirstPlace(n, b, t, i, k, StartClose);
    var l := Reaches(n, b, t, i + 1, k, BeforeRemoval, IsRemoving);
    var m := Reaches(n, b, t, l, k, BeforeBackend, IsClosing);
    assert l < m;
  }

  /** libusb_open returns only after it has held the events lock, unless its write to the
      control pipe failed. */
  lemma LocksBeforeReturning(n: nat, b: Behaviour, t: nat, i: nat, k: nat)
    requires InOperation(n, b, t, i, k, StartOpen) && t < |b.states[k].pc| && b.states[k].pc[t].Idle?
    ensures exists l :: i < l <= k && t < |b.states[l].pc| && (Owns(b.states[l], t) || FailedPC(b.states[l].pc[t]))
  {
    hide Leads, Local, Inv;
    OpeningComes();
    FirstPlace(n, b, t, i, k, StartOpen);
    var l := Reaches(n, b, t, i + 1, k, BeforeOpening, IsOpening);
    BehaviourInv(n, b, l);
    OwnersHold(b.states[l], t);
  }

  lemma LocalPollsAgain(t: nat, p: PC, seen: bool, sh: Shared)
    requires Local(t, p, seen, sh, PollAgain).Some?
    ensures Local(t, p, seen, sh, PollAgain).value.pc.Polling? <==> sh.pollfdModify == 0
  {
  }

  /** A dedicated thread that asks libusb_event_handling_ok polls again exactly if no thread
      is in a section that changes the poll set. */
  lemma PollsAgainExactly(n: nat, b: Behaviour, t: nat, m: nat)
    requires Behaves(n, b) && m < |b.moves| && b.moves[m] == Move(t, PollAgain) && t < |b.states[m + 1].pc|
    ensures b.states[m + 1].pc[t].Polling? <==>
              forall u :: 0 <= u < |b.states[m].pc| ==> !InSection(b.states[m].pc[u])
  {
    hide Local, Behaves, InSection;
    BehaviourLength(n, b);
    Moved(n, b, m);
    BehaviourInv(n, b, m);
    var s := b.states[m];
    LocalPollsAgain(t, s.pc[t], s.watch[t] && s.done[t], s.sh);
    if forall u :: 0 <= u < |s.pc| ==> !InSection(s.pc[u]) {
      CountZero(InSection, s.pc);
    } else {
      var u :| 0 <= u < |s.pc| && InSection(s.pc[u]);
      CountMember(InSection, s.pc, u);
    }
  }

  /** A thread that has run a callback and not broadcast. */
  predicate BeforeBroadcast(p: PC) {
    (p.BroadcastLock? || p.BroadcastSend?) && p.after.ThenDispatch?
  }

  lemma BroadcastComes()
    ensures Leads(BeforeBroadcast, IsBroadcast)
  {
  }

  lemma CallbackBegins(t: nat, p: PC, seen: bool, sh: Shared, a: Action)
    requires (a.Complete? || a.CompleteOther?) && Local(t, p, seen, sh, a).Some?
    ensures BeforeBroadcast(Local(t, p, seen, sh, a).value.pc)
  {
  }

  lemma LocalBroadcasts(t: nat, p: PC, seen: bool, sh: Shared, a: Action)
    requires BeforeBroadcast(p) && Local(t, p, seen, sh, a).Some? && Local(t, p, seen, sh, a).value.pc.BroadcastUnlock?
    ensures Local(t, p, seen, sh, a).value.wake
  {
  }

  predicate AllAwake(s: State) {
    forall u :: 0 <= u < |s.pc| ==> !s.pc[u].Asleep?
  }

  lemma BroadcastWakesAll(n: nat, b: Behaviour, t: nat, m: nat)
    requires Behaves(n, b) && m < |b.moves| && b.moves[m].t == t < |b.states[m].pc| && t < |b.states[m + 1].pc|
    requires BeforeBroadcast(b.states[m].pc[t]) && b.states[m + 1].pc[t].BroadcastUnlock?
    ensures AllAwake(b.states[m + 1])
  {
    hide Local, Inv, Behaves, BeforeBroadcast;
    BehaviourLength(n, b);
    Moved(n, b, m);
    MoveAt(n, b, m);
    var s := b.states[m];
    LocalBroadcasts(t, s.pc[t], s.watch[t] && s.done[t], s.sh, b.moves[m].a);
  }

  lemma CallbackStarts(n: nat, b: Behaviour, t: nat, i: nat)
    requires Behaves(n, b) && i < |b.moves| && b.moves[i].t == t < n
    requires b.moves[i].a.Complete? || b.moves[i].a.CompleteOther?
    ensures |b.states[i + 1].pc| == n && BeforeBroadcast(b.states[i + 1].pc[t])
  {
    hide Local, Inv, Behaves, BeforeBroadcast;
    BehaviourLength(n, b);
    Moved(n, b, i);
    var s := b.states[i];
    CallbackBegins(t, s.pc[t], s.watch[t] && s.done[t], s.sh, b.moves[i].a);
  }

  /** After every completion callback, whether or not it sets a flag, the thread that ran it
      goes on only once it has woken everyone who was asleep. */
  lemma CallbackWakesAll(n: nat, b: Behaviour, t: nat, i: nat, k: nat)
    requires Behaves(n, b) && i < k < |b.states| && b.moves[i].t == t < n
    requires b.moves[i].a.Complete? || b.moves[i].a.CompleteOther?
    requires t < |b.states[k].pc| && !BeforeBroadcast(b.states[k].pc[t])
    ensures exists l :: i < l <= k && b.moves[l - 1].t == t && AllAwake(b.states[l])
  {
    hide Leads, Behaves, BeforeBroadcast;
    BehaviourLength(n, b);
    CallbackStarts(n, b, t, i);
    BroadcastComes();
    var l := Reaches(n, b, t, i + 1, k, BeforeBroadcast, IsBroadcast);
    BroadcastWakesAll(n, b, t, l - 1);
  }

  // ---------------------------------------------------------------------
  // The completed flags

  predicate Resets(m: Move, j: nat) {
    m.t == j && m.a.StartHandle? && m.a.reset
  }

  predicate Begins(m: Move, t: nat) {
    m.t == t && (m.a.StartHandle? || m.a.StartLock?)
  }

  /** The m-th move is a callback for thread j, which has not cleared its flag since. */
  predicate CompletedSince(b: Behaviour, j: nat, m: nat, k: nat) {
    && m < k <= |b.moves| && b.moves[m].a == Complete(j)
    && forall l :: m < l < k ==> !Resets(b.moves[l], j)
  }

  /** Thread t has watched a flag since its m-th move. */
  predicate WatchedSince(b: Behaviour, t: nat, m: nat, k: nat) {
    && m < k <= |b.moves| && Begins(b.moves[m], t) && b.moves[m].a.StartHandle? && b.moves[m].a.watch
    && forall l :: m < l < k ==> !Begins(b.moves[l], t)
  }

  /** What a step does to the flags. */
  lemma LocalFlags(t: nat, p: PC, seen: bool, sh: Shared, a: Action)
    requires Local(t, p, seen, sh, a).Some?
    ensures Local(t, p, seen, sh, a).value.flags ==
      match a
      case StartHandle(w, reset) => Begin(w, reset)
      case StartLock => Begin(false, false)
      case Complete(j) => SetDone(j)
      case _ => Keep
  {
    if ByItself(p, a) {
      if OnEventsLock(p) { LockSideFlags(t, p, seen, sh); } else { WaitSideFlags(t, p, seen, sh); }
    }
  }

  lemma FlagsStep(n: nat, b: Behaviour, k: nat, j: nat)
    requires Behaves(n, b) && k < |b.moves| && j < n
    ensures var s, s', m := b.states[k], b.states[k + 1], b.moves[k];
      && |s.done| == |s'.done| == |s.watch| == |s'.watch| == n
      && s'.done[j] == (if Resets(m, j) then false else s.done[j] || m.a == Complete(j))
      && s'.watch[j] == if Begins(m, j) then m.a.StartHandle? && m.a.watch else s.watch[j]
  {
    hide Local, Inv;
    Moved(n, b, k);
    BehaviourInv(n, b, k + 1);
    MoveAt(n, b, k);
    var s, m := b.states[k], b.moves[k];
    LocalFlags(m.t, s.pc[m.t], s.watch[m.t] && s.done[m.t], s.sh, m.a);
  }

  lemma NoFlags(n: nat, b: Behaviour)
    requires Behaves(n, b)
    ensures |b.states| > 0 && |b.states[0].done| == |b.states[0].watch| == n
    ensures forall t :: 0 <= t < n ==> !b.states[0].done[t] && !b.states[0].watch[t]
  {
  }

  /** In every run the completed flag of a thread is set exactly if a callback for it has
      run since the thread last cleared it. */
  lemma {:induction false} FlagExactly(n: nat, b: Behaviour, k: nat, j: nat)
    requires Behaves(n, b) && k < |b.states| && j < n
    ensures |b.states[k].done| == n
    ensures b.states[k].done[j] <==> exists m: nat :: CompletedSince(b, j, m, k)
    decreases k
  {
    hide Behaves;
    BehaviourLength(n, b);
    NoFlags(n, b);
    if k > 0 {
      FlagExactly(n, b, k - 1, j);
      FlagsStep(n, b, k - 1, j);
      if Resets(b.moves[k - 1], j) {
      } else if b.moves[k - 1].a == Complete(j) {
        assert CompletedSince(b, j, k - 1, k);
      } else if b.states[k - 1].done[j] {
        var m: nat :| CompletedSince(b, j, m, k - 1);
        assert CompletedSince(b, j, m, k);
      } else if m: nat :| CompletedSince(b, j, m, k) {
        assert CompletedSince(b, j, m, k - 1);
      }
    }
  }

  /** And it looks at a flag exactly if it passed one to the call that it began last. */
  lemma {:induction false} WatchExactly(n: nat, b: Behaviour, k: nat, t: nat)
    requires Behaves(n, b) && k < |b.states| && t < n
    ensures |b.states[k].watch| == n
    ensures b.states[k].watch[t] <==> exists m: nat :: WatchedSince(b, t, m, k)
    decreases k
  {
    hide Behaves;
    BehaviourLength(n, b);
    NoFlags(n, b);
    if k > 0 {
      WatchExactly(n, b, k - 1, t);
      FlagsStep(n, b, k - 1, t);
      if Begins(b.moves[k - 1], t) {
        assert b.states[k].watch[t] ==> WatchedSince(b, t, k - 1, k);
      } else if b.states[k - 1].watch[t] {
        var m: nat :| WatchedSince(b, t, m, k - 1);
        assert WatchedSince(b, t, m, k);
      } else if m: nat :| WatchedSince(b, t, m, k) {
        assert WatchedSince(b, t, m, k - 1);
      }
    }
  }

  // ---------------------------------------------------------------------
  // event_handler_active

  /** Handles events, or has the lock to read the control pipe or to remove the transfers
      of a handle. */
  predicate Busy(p: PC) {
    InHandleEvents(p) || p.CheckCompleted? || p.ModifyRead? || p.CloseRemove? || p.CloseDeactivate?
  }

  /** Busy, or about to close with the lock from libusb_close. */
  predicate KeepsActive(p: PC) {
    Busy(p) || p == CloseLock(false) || p == CloseActivate(false)
  }

  ghost predicate ActiveInv(s: State) {
    forall t :: 0 <= t < |s.pc| && KeepsActive(s.pc[t]) ==> s.sh.active
  }

  predicate ActiveEffect(p: PC, sh: Shared, e: Effect) {
    && (KeepsActive(e.pc) ==> e.sh.active)
    && (sh.active && !e.sh.active ==> HoldDepth(p) > 0)
  }

  lemma LockSideActive(t: nat, p: PC, seen: bool, sh: Shared)
    requires (KeepsActive(p) ==> sh.active) && LockSide(t, p, seen, sh).Some?
    ensures ActiveEffect(p, sh, LockSide(t, p, seen, sh).value)
  {
  }

  lemma WaitSideActive(t: nat, p: PC, seen: bool, sh: Shared)
    requires (KeepsActive(p) ==> sh.active) && WaitSide(t, p, seen, sh).Some?
    ensures ActiveEffect(p, sh, WaitSide(t, p, seen, sh).value)
  {
  }

  lemma LocalActive(t: nat, p: PC, seen: bool, sh: Shared, a: Action)
    requires (KeepsActive(p) ==> sh.active) && Local(t, p, seen, sh, a).Some?
    ensures ActiveEffect(p, sh, Local(t, p, seen, sh, a).value)
  {
    hide ActiveEffect;
    if ByItself(p, a) {
      if OnEventsLock(p) { LockSideActive(t, p, seen, sh); } else { WaitSideActive(t, p, seen, sh); }
    } else {
      OtherActive(t, p, seen, sh, a);
    }
  }

  lemma OtherActive(t: nat, p: PC, seen: bool, sh: Shared, a: Action)
    requires (KeepsActive(p) ==> sh.active) && !ByItself(p, a) && Local(t, p, seen, sh, a).Some?
    ensures ActiveEffect(p, sh, Local(t, p, seen, sh, a).value)
  {
  }

  lemma KeepersHold(p: PC)
    ensures KeepsActive(p) ==> HoldDepth(p) > 0
  {
  }

  lemma {:induction false} ActiveAlways(n: nat, b: Behaviour, k: nat)
    requires Behaves(n, b) && k < |b.states|
    ensures ActiveInv(b.states[k])
  {
    hide Local, Inv, KeepsActive, HoldDepth;
    if k == 0 {
      StartKeepsNothing(n);
    } else {
      ActiveAlways(n, b, k - 1);
      Moved(n, b, k - 1);
      BehaviourInv(n, b, k - 1);
      var s, s', t, a := b.states[k - 1], b.states[k], b.moves[k - 1].t, b.moves[k - 1].a;
      LocalActive(t, s.pc[t], s.watch[t] && s.done[t], s.sh, a);
      MoveAt(n, b, k - 1);
      OwnersHold(s, t);
      forall u | 0 <= u < n && KeepsActive(s'.pc[u])
        ensures s'.sh.active
      {
        if u != t {
          Unmoved(n, b, k - 1, u);
          OwnersHold(s, u);
          KeepersHold(s.pc[u]);
          WokenIsIdle();
        }
      }
    }
  }

  lemma StartKeepsNothing(n: nat)
    ensures ActiveInv(Init(n))
  {
  }

  lemma WokenIsIdle()
    ensures !KeepsActive(Woken)
  {
  }

  /** What libusb_event_handler_active answers. */
  predicate EventHandlerActive(s: State) {
    s.sh.pollfdModify > 0 || s.sh.active
  }

  /** In every run libusb_event_handler_active says yes while a thread handles events or
      changes the poll set, and no when nobody holds the events lock or is in a section
      that changes the poll set. */
  lemma ActiveAnswer(n: nat, b: Behaviour, k: nat)
    requires Behaves(n, b) && k < |b.states|
    ensures var s := b.states[k];
      && ((exists t :: 0 <= t < |s.pc| && (Busy(s.pc[t]) || InSection(s.pc[t]))) ==> EventHandlerActive(s))
      && ((forall t :: 0 <= t < |s.pc| ==> !InSection(s.pc[t]) && !Owns(s, t)) ==> !EventHandlerActive(s))
  {
    hide HoldDepth, InSection;
    BehaviourInv(n, b, k);
    ActiveAlways(n, b, k);
    var s := b.states[k];
    if t :| 0 <= t < |s.pc| && InSection(s.pc[t]) {
      CountMember(InSection, s.pc, t);
    }
    if forall t :: 0 <= t < |s.pc| ==> !InSection(s.pc[t]) && !Owns(s, t) {
      CountZero(InSection, s.pc);
      assert s.sh.owner.Some? ==> Owns(s, s.sh.owner.value);
    }
  }

  // ---------------------------------------------------------------------
  // Runs

  /** Thread 0 of n, the others being idle. */
  function Alone(n: nat, p: PC, sh: Shared): State {
    State(seq(n, i => if i == 0 then p else Idle), seq(n, i => false), seq(n, i => false), sh)
  }

  /** A run of n threads of which only the first does anything. */
  ghost predicate SoloRun(n: nat, b: Behaviour, p: PC, sh: Shared) {
    Behaves(n, b) && b.states[|b.moves|] == Alone(n, p, sh)
  }

  lemma SoloStep(n: nat, b: Behaviour, p: PC, sh: Shared, a: Action, q: PC, sh': Shared) returns (c: Behaviour)
    requires n > 0 && SoloRun(n, b, p, sh)
    requires Local(0, p, false, sh, a).Some? && a != WriteFails
    requires var e := Local(0, p, false, sh, a).value;
      e.pc == q && e.sh == sh' && !e.flags.SetDone? && (e.flags.Begin? ==> !e.flags.watch) && !p.Asleep? && !q.Asleep?
    ensures SoloRun(n, c, q, sh') && c.states == b.states + [Alone(n, q, sh')]
  {
    hide Local;
    var s, s' := Alone(n, p, sh), Alone(n, q, sh');
    var e := Local(0, p, false, sh, a).value;
    var t := Apply(s, 0, e);
    assert forall i :: 0 <= i < n ==> t.pc[i] == s'.pc[i];
    assert t.pc == s'.pc && t.watch == s'.watch && t.done == s'.done;
    assert Next(s, 0, a) == Some(s');
    c := Behaviour(b.states + [s'], b.moves + [Move(0, a)]);
    forall i | 0 <= i < |c.moves|
      ensures Moves(c.states[i], c.moves[i], c.states[i + 1])
    {
      if i < |b.moves| { assert Moves(b.states[i], b.moves[i], b.states[i + 1]); }
    }
  }

  const OWNED := Shared(Some(0), 1, false, 0, 0, None)

  /** For any number of threads there is a run in which one polls ... */
  lemma PollingRun(n: nat) returns (b: Behaviour)
    requires n > 0
    ensures SoloRun(n, b, Polling(false), OWNED.(active := true))
    ensures Behaves(n, b) && b.states[|b.moves|].pc[0].Polling?
  {
    hide SoloRun, Local;
    var on := OWNED.(active := true);
    b := Nothing(n);
    TryingSteps();
    b := SoloStep(n, b, Idle, FREE, StartHandle(false, false), TryModify, FREE);
    b := SoloStep(n, b, TryModify, FREE, Internal, TryLock, FREE);
    b := SoloStep(n, b, TryLock, FREE, Internal, Activate(false), OWNED);
    b := SoloStep(n, b, Activate(false), OWNED, Internal, CheckCompleted(false), on);
    b := SoloStep(n, b, CheckCompleted(false), on, Internal, Polling(false), on);
    SoloPolls(n, b, false, on);
  }

  /** ... or polls with the lock from libusb_lock_events ... */
  lemma DedicatedRun(n: nat) returns (b: Behaviour)
    requires n > 0
    ensures SoloRun(n, b, Polling(true), OWNED.(active := true))
    ensures Behaves(n, b) && b.states[|b.moves|].pc[0].Polling?
  {
    hide SoloRun, Local;
    var on := OWNED.(active := true);
    b := Nothing(n);
    LockingSteps();
    b := SoloStep(n, b, Idle, FREE, StartLock, LockEvents, FREE);
    b := SoloStep(n, b, LockEvents, FREE, Internal, Activate(true), OWNED);
    b := SoloStep(n, b, Activate(true), OWNED, Internal, CheckCompleted(true), on);
    b := SoloStep(n, b, CheckCompleted(true), on, Internal, Polling(true), on);
    SoloPolls(n, b, true, on);
  }

  lemma LockingSteps()
    ensures Local(0, Idle, false, FREE, StartLock) == Some(Effect(LockEvents, FREE, Begin(false, false), false))
    ensures Local(0, LockEvents, false, FREE, Internal) == Go(Activate(true), OWNED)
    ensures Local(0, Activate(true), false, OWNED, Internal) == Go(CheckCompleted(true), OWNED.(active := true))
    ensures var on := OWNED.(active := true);
      Local(0, CheckCompleted(true), false, on, Internal) == Go(Polling(true), on)
  {
  }

  lemma Nothing(n: nat) returns (b: Behaviour)
    requires n > 0
    ensures SoloRun(n, b, Idle, FREE)
  {
    b := Behaviour([Init(n)], []);
    var s := Alone(n, Idle, FREE);
    assert Init(n).pc == s.pc && Init(n).watch == s.watch && Init(n).done == s.done;
  }

  lemma SoloPolls(n: nat, b: Behaviour, dedicated: bool, sh: Shared)
    requires n > 0 && SoloRun(n, b, Polling(dedicated), sh)
    ensures Behaves(n, b) && b.states[|b.moves|].pc[0].Polling?
  {
  }

  lemma TryingSteps()
    ensures Local(0, Idle, false, FREE, StartHandle(false, false))
         == Some(Effect(TryModify, FREE, Begin(false, false), false))
    ensures Local(0, TryModify, false, FREE, Internal) == Go(TryLock, FREE)
    ensures Local(0, TryLock, false, FREE, Internal) == Go(Activate(false), OWNED)
    ensures Local(0, Activate(false), false, OWNED, Internal) == Go(CheckCompleted(false), OWNED.(active := true))
    ensures var on := OWNED.(active := true);
      Local(0, CheckCompleted(false), false, on, Internal) == Go(Polling(false), on)
  {
    hide LockSide;
    TryingLockSide();
  }

  lemma TryingLockSide()
    ensures LockSide(0, TryModify, false, FREE) == Go(TryLock, FREE)
    ensures LockSide(0, TryLock, false, FREE) == Go(Activate(false), OWNED)
    ensures LockSide(0, Activate(false), false, OWNED) == Go(CheckCompleted(false), OWNED.(active := true))
    ensures var on := OWNED.(active := true); LockSide(0, CheckCompleted(false), false, on) == Go(Polling(false), on)
  {
  }

  /** ... and, when events have come, returns and lets the lock go. */
  lemma HandlingRun(n: nat) returns (b: Behaviour)
    requires n > 0
    ensures SoloRun(n, b, Idle, FREE)
    ensures exists m :: 0 <= m < |b.states| && Handling(b.states[m], 0)
  {
    hide SoloRun, Local, Handling;
    var on, k := OWNED.(active := true), ThenIdle;
    var hers := FREE.(waiters := Some(0));
    b := PollingRun(n);
    var m: nat := |b.states| - 1;
    SoloHandles(n, b, on);
    ReturningSteps();
    BroadcastingSteps();
    b := SoloStep(n, b, Polling(false), on, External, Dispatch(false), on);
    b := SoloStep(n, b, Dispatch(false), on, Internal, Deactivate, on);
    b := SoloStep(n, b, Deactivate, on, Internal, Release, OWNED);
    b := SoloStep(n, b, Release, OWNED, Internal, BroadcastLock(k), FREE);
    b := SoloStep(n, b, BroadcastLock(k), FREE, Internal, BroadcastSend(k), hers);
    b := SoloStep(n, b, BroadcastSend(k), hers, Internal, BroadcastUnlock(k), hers);
    b := SoloStep(n, b, BroadcastUnlock(k), hers, Internal, Idle, FREE);
    assert Handling(b.states[m], 0);
  }

  lemma SoloHandles(n: nat, b: Behaviour, sh: Shared)
    requires n > 0 && SoloRun(n, b, Polling(false), sh)
    ensures |b.states| == |b.moves| + 1 && Handling(b.states[|b.states| - 1], 0)
  {
  }

  lemma ReturningSteps()
    ensures var on, k := OWNED.(active := true), ThenIdle;
      && Local(0, Polling(false), false, on, External) == Go(Dispatch(false), on)
      && Local(0, Dispatch(false), false, on, Internal) == Go(Deactivate, on)
      && Local(0, Deactivate, false, on, Internal) == Go(Release, OWNED)
      && Local(0, Release, false, OWNED, Internal) == Go(BroadcastLock(k), FREE)
  {
  }

  lemma BroadcastingSteps()
    ensures var k, hers := ThenIdle, FREE.(waiters := Some(0));
      && Local(0, BroadcastLock(k), false, FREE, Internal) == Go(BroadcastSend(k), hers)
      && Local(0, BroadcastSend(k), false, hers, Internal) == Some(Effect(BroadcastUnlock(k), hers, Keep, true))
      && Local(0, BroadcastUnlock(k), false, hers, Internal) == Go(Idle, FREE)
  {
  }

  const HERS := Shared(Some(1), 1, true, 0, 0, None)

  lemma LooksBeside(n: nat) returns (b: Behaviour)
    requires n >= 2
    ensures PairRun(n, b, false, Two(CheckDone, Polling(false), HERS.(waiters := Some(0))))
  {
    hide PairRun;
    var p, mine := Polling(false), HERS.(waiters := Some(0));
    b := PollsBeside(n);
    b := PairStep(n, b, false, Two(Idle, p, HERS), 0, StartHandle(false, false), Two(TryModify, p, HERS));
    b := PairStep(n, b, false, Two(TryModify, p, HERS), 0, Internal, Two(TryLock, p, HERS));
    b := PairStep(n, b, false, Two(TryLock, p, HERS), 0, Internal, Two(LockWaiters, p, HERS));
    b := PairStep(n, b, false, Two(LockWaiters, p, HERS), 0, Internal, Two(CheckDone, p, mine));
  }

  /** With two threads or more there is a run in which one sleeps beside one that
      polls. */
  lemma WaitingRun(n: nat) returns (b: Behaviour)
    requires n >= 2
    ensures PairRun(n, b, false, Two(Asleep, Polling(false), HERS))
    ensures Behaves(n, b) && b.states[|b.moves|].pc[0].Asleep? && b.states[|b.moves|].pc[1].Polling?
  {
    hide PairRun;
    var p, mine := Polling(false), HERS.(waiters := Some(0));
    b := LooksBeside(n);
    b := PairStep(n, b, false, Two(CheckDone, p, mine), 0, Internal, Two(CheckModify, p, mine));
    b := PairStep(n, b, false, Two(CheckModify, p, mine), 0, Internal, Two(CheckActive, p, mine));
    b := PairStep(n, b, false, Two(CheckActive, p, mine), 0, Internal, Two(PC.Sleep, p, mine));
    b := PairStep(n, b, false, Two(PC.Sleep, p, mine), 0, Internal, Two(Asleep, p, HERS));
    PairIs(n, b, Asleep, p, HERS);
  }

  lemma PairIs(n: nat, b: Behaviour, p0: PC, p1: PC, sh: Shared)
    requires n >= 2 && PairRun(n, b, false, Two(p0, p1, sh))
    ensures Behaves(n, b) && b.states[|b.moves|].pc[0] == p0 && b.states[|b.moves|].pc[1] == p1
  {
  }

  lemma PollsBeside(n: nat) returns (b: Behaviour)
    requires n >= 2
    ensures PairRun(n, b, false, Two(Idle, Polling(false), HERS))
  {
    hide PairRun;
    var off := HERS.(active := false);
    b := PairStart(n, false);
    b := PairStep(n, b, false, Two(Idle, Idle, FREE), 1, StartHandle(false, false), Two(Idle, TryModify, FREE));
    b := PairStep(n, b, false, Two(Idle, TryModify, FREE), 1, Internal, Two(Idle, TryLock, FREE));
    b := PairStep(n, b, false, Two(Idle, TryLock, FREE), 1, Internal, Two(Idle, Activate(false), off));
    b := PairStep(n, b, false, Two(Idle, Activate(false), off), 1, Internal, Two(Idle, CheckCompleted(false), HERS));
    b := PairStep(n, b, false, Two(Idle, CheckCompleted(false), HERS), 1, Internal, Two(Idle, Polling(false), HERS));
  }
}
