/** The multi-threaded event-handling protocol of libusb (io.c, core.c), as a
    state machine over the shared variables of one context and the program
    counters of any number of threads.  Every step is one access to a shared
    variable or one lock operation. */
module EventProtocol {
  import opened Options

  /** Where a thread goes after the broadcast it is busy with. */
  datatype After = ThenIdle | ThenDispatch(dedicated: bool) | ThenBackendClose(failed: bool)

  /** Program counters, named after the next thing the thread does.
      `dedicated` marks a thread that took the lock with libusb_lock_events and
      keeps polling; `closing` tells libusb_close from usbi_fd_notification;
      `failed` marks a close whose control-pipe write failed. */
  datatype PC =
    | Idle
    // libusb_try_lock_events, libusb_lock_events
    | TryModify | TryLock | LockEvents | Activate(dedicated: bool)
    // handle_events, called with events_lock held
    | CheckCompleted(dedicated: bool) | Polling(dedicated: bool) | Dispatch(dedicated: bool)
    // libusb_unlock_events
    | Deactivate | Release
    // lock event_waiters_lock, broadcast, unlock
    | BroadcastLock(after: After) | BroadcastSend(after: After) | BroadcastUnlock(after: After)
    // the waiting half of libusb_handle_events_timeout_completed
    | LockWaiters | CheckDone | CheckModify | CheckActive | RetryUnlock
    | Sleep | Asleep | Woken | UnlockWaiters
    // usbi_fd_notification and libusb_close
    | ModifyInc(closing: bool) | ModifyWrite(closing: bool) | ModifyLock(closing: bool)
    | ModifyActivate(closing: bool) | ModifyRead(closing: bool) | ModifyDec
    // do_close
    | CloseLock(failed: bool) | CloseActivate(failed: bool) | CloseRemove(failed: bool)
    | CloseDeactivate(failed: bool) | CloseRelease(failed: bool) | BackendClose(failed: bool)
    // pollfd_modify-- after a failed control-pipe write
    | FailedDec

  /** The shared variables of libusb_context that the protocol uses. */
  datatype Shared = Shared(
    owner: Option<nat>,      // holder of the recursive events_lock
    depth: nat,              // and how often it holds it
    active: bool,            // event_handler_active
    pollfdModify: nat,       // pollfd_modify
    pipe: nat,               // unread bytes in the control pipe
    waiters: Option<nat>     // holder of event_waiters_lock
  )

  datatype State = State(
    pc: seq<PC>,
    watch: seq<bool>,        // the thread passed a non-NULL `completed`
    done: seq<bool>,         // the int that `completed` points to
    sh: Shared
  ) {
    predicate Shaped() {
      |watch| == |pc| && |done| == |pc|
    }
  }

  /** What the environment decides for a step. */
  datatype Action =
    | Internal                              // no choice to make
    | External                              // a poll or a wait ends for an outside reason
    | StartHandle(watch: bool, reset: bool) // libusb_handle_events_*; a new `completed` starts at 0
    | StartLock                             // libusb_lock_events by a dedicated thread
    | StartOpen
    | StartClose
    | Complete(who: nat)                    // a callback sets thread who's completed flag
    | CompleteOther                         // a callback that sets no flag
    | PollAgain                             // a dedicated thread asks libusb_event_handling_ok
    | WriteFails                            // usbi_write on the control pipe fails

  function Init(n: nat): (s: State)
    ensures s.Shaped() && |s.pc| == n
  {
    State(seq(n, i => Idle), seq(n, i => false), seq(n, i => false), Shared(None, 0, false, 0, 0, None))
  }

  function WakeAll(pc: seq<PC>): (r: seq<PC>)
    ensures |r| == |pc|
    ensures forall i :: 0 <= i < |pc| ==> r[i] == if pc[i].Asleep? then Woken else pc[i]
  {
    seq(|pc|, i requires 0 <= i < |pc| => if pc[i].Asleep? then Woken else pc[i])
  }

  function Resume(a: After): PC {
    match a
    case ThenIdle => Idle
    case ThenDispatch(d) => Dispatch(d)
    case ThenBackendClose(f) => BackendClose(f)
  }

  datatype FlagEffect = Keep | Begin(watch: bool, reset: bool) | SetDone(who: nat)

  /** What one step of a thread changes: its program counter, the shared
      variables, the completion flags, and whether it broadcasts. */
  datatype Effect = Effect(pc: PC, sh: Shared, flags: FlagEffect, wake: bool)

  function Go(p: PC, sh: Shared): Option<Effect> {
    Some(Effect(p, sh, Keep, false))
  }

  /** One pthread_mutex_unlock of the recursive events_lock. */
  function Unlock(sh: Shared): Shared
    requires sh.depth > 0
  {
    sh.(depth := sh.depth - 1, owner := if sh.depth == 1 then None else sh.owner)
  }

  /** The step of thread t at p; None when it is blocked or the action does not
      apply there.  `seen` is *completed as this thread reads it now. */
  function Local(t: nat, p: PC, seen: bool, sh: Shared, a: Action): Option<Effect> {
    if p.Idle? then
      match a
      case StartHandle(w, reset) => Some(Effect(TryModify, sh, Begin(w, reset), false))
      case StartLock => Some(Effect(LockEvents, sh, Begin(false, false), false))
      case StartOpen => Go(ModifyInc(false), sh)
      case StartClose => Go(ModifyInc(true), sh)
      case _ => None
    else if p.Dispatch? then
      match a
      case Complete(j) => Some(Effect(BroadcastLock(ThenDispatch(p.dedicated)), sh, SetDone(j), false))
      case CompleteOther => Go(BroadcastLock(ThenDispatch(p.dedicated)), sh)
      case PollAgain => if p.dedicated then Go(if sh.pollfdModify > 0 then Deactivate else Polling(true), sh) else None
      case Internal => Go(Deactivate, sh)
      case _ => None
    else if a.External? then
      match p
      case Polling(d) => Go(Dispatch(d), sh)
      case Asleep => Go(Woken, sh)
      case _ => None
    else if a.WriteFails? then
      if p.ModifyWrite? then Go(if p.closing then CloseLock(true) else FailedDec, sh) else None
    else if ByItself(p, a) then
      if OnEventsLock(p) then LockSide(t, p, seen, sh) else WaitSide(t, p, seen, sh)
    else None
  }

  /** The step is one that only the thread and the shared variables decide. */
  predicate ByItself(p: PC, a: Action) {
    a.Internal? && !p.Idle? && !p.Dispatch?
  }

  predicate OnEventsLock(p: PC) {
    !(p.BroadcastLock? || p.BroadcastSend? || p.BroadcastUnlock? || p.LockWaiters? || p.CheckDone? || p.CheckModify?
      || p.CheckActive? || p.RetryUnlock? || p.Sleep? || p.Asleep? || p.Woken? || p.UnlockWaiters?)
  }

  /** Steps around events_lock, pollfd_modify and the control pipe. */
  function LockSide(t: nat, p: PC, seen: bool, sh: Shared): (r: Option<Effect>)
    ensures r.Some? ==> r.value.sh.waiters == sh.waiters && !r.value.wake
  {
    match p
    case TryModify => Go(if sh.pollfdModify > 0 then LockWaiters else TryLock, sh)
    case TryLock =>
      if sh.owner.None? then Go(Activate(false), sh.(owner := Some(t), depth := 1)) else Go(LockWaiters, sh)
    case LockEvents => if sh.owner.None? then Go(Activate(true), sh.(owner := Some(t), depth := 1)) else None
    case Activate(d) => Go(CheckCompleted(d), sh.(active := true))
    case CheckCompleted(d) => Go(if seen then Deactivate else Polling(d), sh)
    case Polling(d) => if sh.pipe > 0 then Go(Dispatch(d), sh) else None
    case Deactivate => Go(Release, sh.(active := false))
    case Release => if sh.depth > 0 then Go(BroadcastLock(ThenIdle), Unlock(sh)) else None
    case ModifyInc(c) => Go(ModifyWrite(c), sh.(pollfdModify := sh.pollfdModify + 1))
    case ModifyWrite(c) => Go(ModifyLock(c), sh.(pipe := sh.pipe + 1))
    case ModifyLock(c) => if sh.owner.None? then Go(ModifyActivate(c), sh.(owner := Some(t), depth := 1)) else None
    case ModifyActivate(c) => Go(ModifyRead(c), sh.(active := true))
    case ModifyRead(c) =>
      if sh.pipe > 0 then Go(if c then CloseLock(false) else ModifyDec, sh.(pipe := sh.pipe - 1)) else None
    case ModifyDec => if sh.pollfdModify > 0 then Go(Deactivate, sh.(pollfdModify := sh.pollfdModify - 1)) else None
    case CloseLock(f) =>
      if sh.owner.None? then Go(CloseActivate(f), sh.(owner := Some(t), depth := 1))
      else if sh.owner.value == t then Go(CloseActivate(f), sh.(depth := sh.depth + 1))
      else None
    case CloseActivate(f) => Go(CloseRemove(f), sh.(active := true))
    case CloseRemove(f) => Go(CloseDeactivate(f), sh)
    case CloseDeactivate(f) => Go(CloseRelease(f), sh.(active := false))
    case CloseRelease(f) => if sh.depth > 0 then Go(BroadcastLock(ThenBackendClose(f)), Unlock(sh)) else None
    case BackendClose(f) => Go(if f then FailedDec else ModifyDec, sh)
    case FailedDec => if sh.pollfdModify > 0 then Go(Idle, sh.(pollfdModify := sh.pollfdModify - 1)) else None
    case _ => None
  }

  /** Steps around event_waiters_lock and its condition variable. */
  function WaitSide(t: nat, p: PC, seen: bool, sh: Shared): (r: Option<Effect>)
    ensures r.Some? ==> r.value.sh == sh.(waiters := r.value.sh.waiters)
  {
    match p
    case BroadcastLock(k) => if sh.waiters.None? then Go(BroadcastSend(k), sh.(waiters := Some(t))) else None
    case BroadcastSend(k) => Some(Effect(BroadcastUnlock(k), sh, Keep, true))
    case BroadcastUnlock(k) => Go(Resume(k), sh.(waiters := None))
    case LockWaiters => if sh.waiters.None? then Go(CheckDone, sh.(waiters := Some(t))) else None
    case CheckDone => Go(if seen then UnlockWaiters else CheckModify, sh)
    case CheckModify => Go(if sh.pollfdModify > 0 then Sleep else CheckActive, sh)
    case CheckActive => Go(if sh.active then Sleep else RetryUnlock, sh)
    case RetryUnlock => Go(TryModify, sh.(waiters := None))
    case Sleep => Go(Asleep, sh.(waiters := None))
    case Woken => if sh.waiters.None? then Go(UnlockWaiters, sh.(waiters := Some(t))) else None
    case UnlockWaiters => Go(Idle, sh.(waiters := None))
    case _ => None
  }

  function Apply(s: State, t: nat, e: Effect): (s': State)
    requires s.Shaped() && t < |s.pc|
    ensures s'.Shaped() && |s'.pc| == |s.pc| && s'.sh == e.sh
    ensures s'.pc[t] == e.pc
    ensures forall u :: 0 <= u < |s.pc| && u != t ==>
              s'.pc[u] == if e.wake && s.pc[u].Asleep? then Woken else s.pc[u]
  {
    State((if e.wake then WakeAll(s.pc) else s.pc)[t := e.pc],
          if e.flags.Begin? then s.watch[t := e.flags.watch] else s.watch,
          if e.flags.Begin? && e.flags.reset then s.done[t := false]
          else if e.flags.SetDone? && e.flags.who < |s.pc| then s.done[e.flags.who := true]
          else s.done,
          e.sh)
  }

  function Next(s: State, t: nat, a: Action): (r: Option<State>)
    requires s.Shaped() && t < |s.pc|
    ensures r.Some? ==> r.value.Shaped() && |r.value.pc| == |s.pc|
  {
    match Local(t, s.pc[t], s.watch[t] && s.done[t], s.sh, a)
    case None => None
    case Some(e) => Some(Apply(s, t, e))
  }

  /** A run: which thread moves, and how, one step after the other. */
  datatype Trace = Start | Then(before: Trace, t: nat, a: Action)

  function Run(n: nat, trace: Trace): (r: Option<State>)
    ensures r.Some? ==> r.value.Shaped() && |r.value.pc| == n
  {
    match trace
    case Start => Some(Init(n))
    case Then(before, t, a) =>
      match Run(n, before)
      case None => None
      case Some(s) => if t < n then Next(s, t, a) else None
  }

  // ---------------------------------------------------------------------
  // What a program counter says about the locks and counters

  function HoldDepth(p: PC): nat {
    match p
    case Activate(_) => 1
    case CheckCompleted(_) => 1
    case Polling(_) => 1
    case Dispatch(_) => 1
    case Deactivate => 1
    case Release => 1
    case BroadcastLock(k) => AfterDepth(k)
    case BroadcastSend(k) => AfterDepth(k)
    case BroadcastUnlock(k) => AfterDepth(k)
    case ModifyActivate(_) => 1
    case ModifyRead(_) => 1
    case ModifyDec => 1
    case CloseLock(f) => if f then 0 else 1
    case CloseActivate(f) => if f then 1 else 2
    case CloseRemove(f) => if f then 1 else 2
    case CloseDeactivate(f) => if f then 1 else 2
    case CloseRelease(f) => if f then 1 else 2
    case BackendClose(f) => if f then 0 else 1
    case _ => 0
  }

  function AfterDepth(k: After): nat {
    match k
    case ThenIdle => 0
    case ThenDispatch(_) => 1
    case ThenBackendClose(f) => if f then 0 else 1
  }

  predicate HoldsWaiters(p: PC) {
    p.CheckDone? || p.CheckModify? || p.CheckActive? || p.RetryUnlock? || p.Sleep? || p.UnlockWaiters?
    || p.BroadcastSend? || p.BroadcastUnlock?
  }

  /** Between pollfd_modify++ and pollfd_modify--. */
  predicate InSection(p: PC) {
    p.ModifyWrite? || p.ModifyLock? || p.ModifyActivate? || p.ModifyRead? || p.ModifyDec?
    || p.CloseLock? || p.CloseActivate? || p.CloseRemove? || p.CloseDeactivate? || p.CloseRelease?
    || p.BackendClose? || p.FailedDec?
    || ((p.BroadcastLock? || p.BroadcastSend? || p.BroadcastUnlock?) && p.after.ThenBackendClose?)
  }

  /** Between the write to the control pipe and the read of that byte. */
  predicate WroteNotRead(p: PC) {
    p.ModifyLock? || p.ModifyActivate? || p.ModifyRead?
  }

  /** Inside handle_events. */
  predicate InHandleEvents(p: PC) {
    p.Polling? || p.Dispatch?
    || ((p.BroadcastLock? || p.BroadcastSend? || p.BroadcastUnlock?) && p.after.ThenDispatch?)
  }

  /** The thread will still broadcast: it holds events_lock, or is on its way to
      it inside a pollfd_modify section, or has not yet sent the broadcast that
      an unlock or a completion callback calls for. */
  predicate Owes(p: PC) {
    HoldDepth(p) > 0 || p.ModifyWrite? || p.ModifyLock? || p.CloseLock? || p.BroadcastLock? || p.BroadcastSend?
  }

  /** The thread sleeps, or has decided to and still holds event_waiters_lock. */
  predicate Sleeping(p: PC) {
    p.Sleep? || p.Asleep?
  }

  /** The thread saw `completed` unset and did not look again since. */
  predicate PastDoneCheck(p: PC) {
    p.CheckModify? || p.CheckActive? || p.Sleep? || p.Asleep?
  }

  /** The thread ran a completion callback and has not broadcast yet. */
  predicate Announcing(p: PC) {
    (p.BroadcastLock? || p.BroadcastSend?) && p.after.ThenDispatch?
  }

  /** The control-pipe write of this thread failed. */
  predicate FailedPC(p: PC) {
    p.FailedDec?
    || ((p.CloseLock? || p.CloseActivate? || p.CloseRemove? || p.CloseDeactivate? || p.CloseRelease? || p.BackendClose?)
        && p.failed)
    || ((p.BroadcastLock? || p.BroadcastSend? || p.BroadcastUnlock?) && p.after.ThenBackendClose? && p.after.failed)
  }

  function Count(f: PC -> bool, pc: seq<PC>): nat {
    if pc == [] then 0 else (if f(pc[0]) then 1 else 0) + Count(f, pc[1..])
  }

  lemma {:induction false} CountUpdate(f: PC -> bool, pc: seq<PC>, t: nat, p: PC)
    requires t < |pc|
    ensures Count(f, pc[t := p]) == Count(f, pc) - (if f(pc[t]) then 1 else 0) + (if f(p) then 1 else 0)
  {
    if t == 0 {
      assert pc[t := p][1..] == pc[1..];
    } else {
      assert pc[t := p][1..] == pc[1..][t - 1 := p];
      CountUpdate(f, pc[1..], t - 1, p);
    }
  }

  lemma {:induction false} CountWitness(f: PC -> bool, pc: seq<PC>) returns (u: nat)
    requires Count(f, pc) > 0
    ensures u < |pc| && f(pc[u])
  {
    if f(pc[0]) {
      u := 0;
    } else {
      var v := CountWitness(f, pc[1..]);
      u := v + 1;
    }
  }

  lemma {:induction false} CountMember(f: PC -> bool, pc: seq<PC>, t: nat)
    requires t < |pc| && f(pc[t])
    ensures Count(f, pc) > 0
  {
    if t > 0 { CountMember(f, pc[1..], t - 1); }
  }

  lemma {:induction false} CountZero(f: PC -> bool, pc: seq<PC>)
    requires forall i :: 0 <= i < |pc| ==> !f(pc[i])
    ensures Count(f, pc) == 0
  {
    if pc != [] { CountZero(f, pc[1..]); }
  }

  lemma {:induction false} CountWake(f: PC -> bool, pc: seq<PC>)
    requires !f(Asleep) && !f(Woken)
    ensures Count(f, WakeAll(pc)) == Count(f, pc)
  {
    if pc != [] {
      assert WakeAll(pc)[1..] == WakeAll(pc[1..]);
      CountWake(f, pc[1..]);
    }
  }

  // ---------------------------------------------------------------------
  // Invariants

  /** One thread's view of events_lock. */
  predicate HoldsAs(t: nat, p: PC, sh: Shared) {
    HoldDepth(p) == if sh.owner == Some(t) then sh.depth else 0
  }

  ghost predicate LockInv(s: State) {
    && s.Shaped()
    && (s.sh.owner.Some? ==> s.sh.owner.value < |s.pc| && s.sh.depth > 0)
    && (s.sh.owner.None? ==> s.sh.depth == 0)
    && (forall t :: 0 <= t < |s.pc| ==> HoldsAs(t, s.pc[t], s.sh))
    && (s.sh.active ==> s.sh.owner.Some? && !Releasing(s.pc[s.sh.owner.value]))
  }

  predicate Releasing(p: PC) {
    p.Release? || p.CloseRelease?
  }

  ghost predicate WaiterInv(s: State) {
    && (s.sh.waiters.Some? ==> s.sh.waiters.value < |s.pc|)
    && (forall t :: 0 <= t < |s.pc| ==> (HoldsWaiters(s.pc[t]) <==> s.sh.waiters == Some(t)))
  }

  ghost predicate CountInv(s: State) {
    && s.sh.pollfdModify == Count(InSection, s.pc)
    && s.sh.pipe == Count(WroteNotRead, s.pc)
  }

  ghost predicate DoneInv(s: State) {
    s.Shaped() &&
    forall t :: 0 <= t < |s.pc| && PastDoneCheck(s.pc[t]) && s.watch[t] && s.done[t] ==>
      exists u :: 0 <= u < |s.pc| && Announcing(s.pc[u])
  }

  ghost predicate WakeInv(s: State) {
    (exists t :: 0 <= t < |s.pc| && Sleeping(s.pc[t])) ==>
      exists u :: 0 <= u < |s.pc| && Owes(s.pc[u])
  }

  ghost predicate NoFailure(s: State) {
    forall t :: 0 <= t < |s.pc| ==> !FailedPC(s.pc[t])
  }

  ghost predicate Inv(s: State) {
    LockInv(s) && WaiterInv(s) && CountInv(s) && DoneInv(s)
  }

  /** What LocalLock promises of one step. */
  predicate LockEffect(t: nat, sh: Shared, e: Effect) {
    && HoldsAs(t, e.pc, e.sh)
    && (e.sh.owner.Some? <==> e.sh.depth > 0)
    && (sh.owner.Some? && sh.owner != Some(t) ==> e.sh.owner == sh.owner && e.sh.depth == sh.depth)
    && (e.sh.owner == sh.owner || e.sh.owner == Some(t) || e.sh.owner == None)
    && (e.sh.active ==> e.sh.owner.Some? && (e.sh.owner == Some(t) ==> !Releasing(e.pc)))
    && (e.sh.active && e.sh.owner != Some(t) ==> sh.active)
  }

  predicate LockView(t: nat, p: PC, sh: Shared) {
    && HoldsAs(t, p, sh) && (sh.owner.Some? <==> sh.depth > 0)
    && (sh.active ==> sh.owner.Some? && (sh.owner == Some(t) ==> !Releasing(p)))
  }

  lemma LockSideLock(t: nat, p: PC, seen: bool, sh: Shared)
    requires LockView(t, p, sh) && LockSide(t, p, seen, sh).Some?
    ensures LockEffect(t, sh, LockSide(t, p, seen, sh).value)
  {
  }

  lemma WaitSideLock(t: nat, p: PC, seen: bool, sh: Shared)
    requires LockView(t, p, sh) && WaitSide(t, p, seen, sh).Some?
    ensures LockEffect(t, sh, WaitSide(t, p, seen, sh).value)
  {
  }

  /** A step moves events_lock only for the thread that takes it. */
  lemma LocalLock(t: nat, p: PC, seen: bool, sh: Shared, a: Action)
    requires LockView(t, p, sh) && Local(t, p, seen, sh, a).Some?
    ensures LockEffect(t, sh, Local(t, p, seen, sh, a).value)
  {
    if ByItself(p, a) {
      if OnEventsLock(p) { LockSideLock(t, p, seen, sh); } else { WaitSideLock(t, p, seen, sh); }
    }
  }

  lemma LockApply(s: State, t: nat, e: Effect)
    requires LockInv(s) && t < |s.pc| && LockEffect(t, s.sh, e)
    ensures LockInv(Apply(s, t, e))
  {
    var s' := Apply(s, t, e);
    forall u | 0 <= u < |s'.pc|
      ensures HoldsAs(u, s'.pc[u], s'.sh)
    {
      assert HoldsAs(u, s.pc[u], s.sh);
    }
  }

  lemma WaitSideWaiters(t: nat, p: PC, seen: bool, sh: Shared)
    requires HoldsWaiters(p) <==> sh.waiters == Some(t)
    requires WaitSide(t, p, seen, sh).Some?
    ensures WaitersEffect(t, p, sh, WaitSide(t, p, seen, sh).value)
  {
  }

  lemma LockSideWaiters(t: nat, p: PC, seen: bool, sh: Shared)
    requires LockSide(t, p, seen, sh).Some?
    ensures !HoldsWaiters(p) && !HoldsWaiters(LockSide(t, p, seen, sh).value.pc)
  {
  }

  predicate WaitersEffect(t: nat, p: PC, sh: Shared, e: Effect) {
    && (HoldsWaiters(e.pc) <==> e.sh.waiters == Some(t))
    && (e.sh.waiters == sh.waiters || e.sh.waiters == Some(t) || e.sh.waiters.None?)
    && (e.sh.waiters == sh.waiters || sh.waiters == Some(t) || sh.waiters.None?)
    && (e.wake ==> p.BroadcastSend? && e.pc == BroadcastUnlock(p.after))
  }

  /** A step moves event_waiters_lock only to or from the thread that takes it. */
  lemma LocalWaiters(t: nat, p: PC, seen: bool, sh: Shared, a: Action)
    requires HoldsWaiters(p) <==> sh.waiters == Some(t)
    requires Local(t, p, seen, sh, a).Some?
    ensures WaitersEffect(t, p, sh, Local(t, p, seen, sh, a).value)
  {
    if ByItself(p, a) {
      if OnEventsLock(p) { LockSideWaiters(t, p, seen, sh); } else { WaitSideWaiters(t, p, seen, sh); }
    }
  }

  lemma WaitersApply(s: State, t: nat, e: Effect)
    requires s.Shaped() && WaiterInv(s) && t < |s.pc| && WaitersEffect(t, s.pc[t], s.sh, e)
    ensures WaiterInv(Apply(s, t, e))
  {
    var s' := Apply(s, t, e);
    forall u | 0 <= u < |s'.pc|
      ensures HoldsWaiters(s'.pc[u]) <==> s'.sh.waiters == Some(u)
    {
      assert HoldsWaiters(s.pc[u]) <==> s.sh.waiters == Some(u);
    }
  }

  function Indicator(b: bool): nat {
    if b then 1 else 0
  }

  predicate CountEffect(p: PC, sh: Shared, e: Effect) {
    && e.sh.pollfdModify + Indicator(InSection(p)) == sh.pollfdModify + Indicator(InSection(e.pc))
    && e.sh.pipe + Indicator(WroteNotRead(p)) == sh.pipe + Indicator(WroteNotRead(e.pc))
  }

  lemma LockSideCounts(t: nat, p: PC, seen: bool, sh: Shared)
    requires LockSide(t, p, seen, sh).Some?
    ensures CountEffect(p, sh, LockSide(t, p, seen, sh).value)
  {
  }

  lemma WaitSideCounts(t: nat, p: PC, seen: bool, sh: Shared)
    requires WaitSide(t, p, seen, sh).Some?
    ensures CountEffect(p, sh, WaitSide(t, p, seen, sh).value)
  {
  }

  lemma OtherCounts(t: nat, p: PC, seen: bool, sh: Shared, a: Action)
    requires !ByItself(p, a) && Local(t, p, seen, sh, a).Some?
    ensures CountEffect(p, sh, Local(t, p, seen, sh, a).value)
  {
  }

  /** The two counters move with the thread's own section and pipe status. */
  lemma LocalCounts(t: nat, p: PC, seen: bool, sh: Shared, a: Action)
    requires Local(t, p, seen, sh, a).Some?
    ensures CountEffect(p, sh, Local(t, p, seen, sh, a).value)
  {
    if ByItself(p, a) {
      if OnEventsLock(p) { LockSideCounts(t, p, seen, sh); } else { WaitSideCounts(t, p, seen, sh); }
    } else {
      OtherCounts(t, p, seen, sh, a);
    }
  }

  lemma CountApply(s: State, t: nat, e: Effect)
    requires s.Shaped() && CountInv(s) && t < |s.pc| && CountEffect(s.pc[t], s.sh, e)
    requires e.wake ==> s.pc[t].BroadcastSend?
    ensures CountInv(Apply(s, t, e))
  {
    var base := if e.wake then WakeAll(s.pc) else s.pc;
    CountWake(InSection, s.pc);
    CountWake(WroteNotRead, s.pc);
    CountUpdate(InSection, base, t, e.pc);
    CountUpdate(WroteNotRead, base, t, e.pc);
  }

  /** How a step moves between the sets that the wake-up argument uses. */
  predicate DutyEffect(p: PC, seen: bool, sh: Shared, e: Effect) {
    && (PastDoneCheck(e.pc) && !PastDoneCheck(p) ==> !seen)
    && (Announcing(p) && !Announcing(e.pc) ==> e.wake)
    && (e.flags.SetDone? ==> Announcing(e.pc))
    && (e.flags.Begin? ==> !PastDoneCheck(e.pc))
    && (Sleeping(e.pc) && !Sleeping(p) ==> sh.pollfdModify > 0 || sh.active)
    && (e.wake ==> HoldsWaiters(p) && !PastDoneCheck(e.pc))
  }

  /** A step keeps the thread's debt unless it broadcasts, and does not turn it
      into one whose write failed. */
  predicate DebtEffect(p: PC, e: Effect) {
    && (Owes(p) && !Owes(e.pc) ==> e.wake)
    && (FailedPC(e.pc) ==> FailedPC(p))
  }

  lemma WaitSideDuties(t: nat, p: PC, seen: bool, sh: Shared)
    requires WaitSide(t, p, seen, sh).Some?
    ensures DutyEffect(p, seen, sh, WaitSide(t, p, seen, sh).value)
    ensures DebtEffect(p, WaitSide(t, p, seen, sh).value)
  {
  }

  lemma LockSideDuties(t: nat, p: PC, seen: bool, sh: Shared)
    requires LockSide(t, p, seen, sh).Some?
    ensures DutyEffect(p, seen, sh, LockSide(t, p, seen, sh).value)
  {
  }

  lemma LockSideOwes(t: nat, p: PC, seen: bool, sh: Shared)
    requires LockSide(t, p, seen, sh).Some? && Owes(p)
    ensures Owes(LockSide(t, p, seen, sh).value.pc)
  {
  }

  lemma LockSideFailed(t: nat, p: PC, seen: bool, sh: Shared)
    requires LockSide(t, p, seen, sh).Some? && FailedPC(LockSide(t, p, seen, sh).value.pc)
    ensures FailedPC(p)
  {
  }

  lemma LocalDuties(t: nat, p: PC, seen: bool, sh: Shared, a: Action)
    requires Local(t, p, seen, sh, a).Some?
    ensures DutyEffect(p, seen, sh, Local(t, p, seen, sh, a).value)
    ensures a.WriteFails? || DebtEffect(p, Local(t, p, seen, sh, a).value)
  {
    if ByItself(p, a) {
      if OnEventsLock(p) {
        LockSideDuties(t, p, seen, sh);
        if Owes(p) { LockSideOwes(t, p, seen, sh); }
        if FailedPC(LockSide(t, p, seen, sh).value.pc) { LockSideFailed(t, p, seen, sh); }
      } else {
        WaitSideDuties(t, p, seen, sh);
      }
    }
  }

  /** Right after a broadcast nobody sleeps and nobody is about to. */
  lemma BroadcastLeavesNoSleeper(s: State, t: nat, e: Effect)
    requires s.Shaped() && WaiterInv(s) && t < |s.pc|
    requires e.wake && HoldsWaiters(s.pc[t]) && !PastDoneCheck(e.pc)
    ensures forall u :: 0 <= u < |s.pc| ==> !PastDoneCheck(Apply(s, t, e).pc[u])
  {
    forall u | 0 <= u < |s.pc|
      ensures !PastDoneCheck(Apply(s, t, e).pc[u])
    {
      assert HoldsWaiters(s.pc[u]) <==> s.sh.waiters == Some(u);
      assert HoldsWaiters(s.pc[t]) <==> s.sh.waiters == Some(t);
    }
  }

  lemma DoneApply(s: State, t: nat, e: Effect)
    requires WaiterInv(s) && DoneInv(s) && t < |s.pc| && DutyEffect(s.pc[t], s.watch[t] && s.done[t], s.sh, e)
    ensures DoneInv(Apply(s, t, e))
  {
    var s' := Apply(s, t, e);
    if e.wake {
      BroadcastLeavesNoSleeper(s, t, e);
    } else {
      forall u | 0 <= u < |s'.pc| && PastDoneCheck(s'.pc[u]) && s'.watch[u] && s'.done[u]
        ensures exists v :: 0 <= v < |s'.pc| && Announcing(s'.pc[v])
      {
        if e.flags.SetDone? {
          assert Announcing(s'.pc[t]);
        } else {
          assert PastDoneCheck(s.pc[u]) && s.watch[u] && s.done[u];
          var v :| 0 <= v < |s.pc| && Announcing(s.pc[v]);
          assert Announcing(s'.pc[v]);
        }
      }
    }
  }

  /** An obligation to broadcast is discharged only by a broadcast, unless the
      control-pipe write fails: when a thread stops owing one, nobody sleeps. */
  lemma DutyEndsInBroadcast(s: State, t: nat, a: Action)
    requires Inv(s) && t < |s.pc| && Next(s, t, a).Some? && !a.WriteFails?
    requires Owes(s.pc[t]) && !Owes(Next(s, t, a).value.pc[t])
    ensures forall u :: 0 <= u < |s.pc| ==> !Sleeping(Next(s, t, a).value.pc[u])
  {
    LocalDuties(t, s.pc[t], s.watch[t] && s.done[t], s.sh, a);
    BroadcastLeavesNoSleeper(s, t, Local(t, s.pc[t], s.watch[t] && s.done[t], s.sh, a).value);
  }

  /** A thread inside a pollfd_modify section owes a broadcast unless its write failed. */
  lemma SectionOwes(s: State) returns (u: nat)
    requires CountInv(s) && NoFailure(s) && s.sh.pollfdModify > 0
    ensures u < |s.pc| && Owes(s.pc[u])
  {
    u := CountWitness(InSection, s.pc);
    assert !FailedPC(s.pc[u]);
  }

  lemma WakeApply(s: State, t: nat, e: Effect)
    requires Inv(s) && NoFailure(s) && WakeInv(s) && t < |s.pc|
    requires DutyEffect(s.pc[t], s.watch[t] && s.done[t], s.sh, e) && DebtEffect(s.pc[t], e)
    ensures WakeInv(Apply(s, t, e))
  {
    var s' := Apply(s, t, e);
    if e.wake {
      BroadcastLeavesNoSleeper(s, t, e);
    } else if x :| 0 <= x < |s'.pc| && Sleeping(s'.pc[x]) {
      var u: nat;
      if Sleeping(s.pc[x]) {
        u :| 0 <= u < |s.pc| && Owes(s.pc[u]);
      } else if s.sh.pollfdModify > 0 {
        u := SectionOwes(s);
      } else {
        u := s.sh.owner.value;
        assert HoldsAs(u, s.pc[u], s.sh);
      }
      assert Owes(s'.pc[u]);
    }
  }

  lemma FailureApply(s: State, t: nat, e: Effect)
    requires s.Shaped() && NoFailure(s) && t < |s.pc| && !FailedPC(e.pc)
    ensures NoFailure(Apply(s, t, e))
  {
  }

  lemma InvStep(s: State, t: nat, a: Action)
    requires Inv(s) && t < |s.pc| && Next(s, t, a).Some?
    ensures Inv(Next(s, t, a).value)
  {
    var seen := s.watch[t] && s.done[t];
    var e := Local(t, s.pc[t], seen, s.sh, a).value;
    assert HoldsAs(t, s.pc[t], s.sh) && (HoldsWaiters(s.pc[t]) <==> s.sh.waiters == Some(t));
    LocalLock(t, s.pc[t], seen, s.sh, a);
    LocalWaiters(t, s.pc[t], seen, s.sh, a);
    LocalCounts(t, s.pc[t], seen, s.sh, a);
    LocalDuties(t, s.pc[t], seen, s.sh, a);
    LockApply(s, t, e);
    WaitersApply(s, t, e);
    CountApply(s, t, e);
    DoneApply(s, t, e);
  }

  lemma WakeStep(s: State, t: nat, a: Action)
    requires Inv(s) && NoFailure(s) && WakeInv(s) && t < |s.pc| && Next(s, t, a).Some? && !a.WriteFails?
    ensures NoFailure(Next(s, t, a).value) && WakeInv(Next(s, t, a).value)
  {
    var e := Local(t, s.pc[t], s.watch[t] && s.done[t], s.sh, a).value;
    LocalDuties(t, s.pc[t], s.watch[t] && s.done[t], s.sh, a);
    FailureApply(s, t, e);
    WakeApply(s, t, e);
  }

  // ---------------------------------------------------------------------
  // Whole runs

  predicate WritesSucceed(trace: Trace) {
    trace.Then? ==> !trace.a.WriteFails? && WritesSucceed(trace.before)
  }

  lemma InitInv(n: nat)
    ensures Inv(Init(n)) && NoFailure(Init(n)) && WakeInv(Init(n))
  {
    CountZero(InSection, Init(n).pc);
    CountZero(WroteNotRead, Init(n).pc);
  }

  /** The lock, waiter, counter and completion invariants hold in every run,
      failed writes included. */
  lemma {:induction false} InvAlways(n: nat, trace: Trace)
    requires Run(n, trace).Some?
    ensures Inv(Run(n, trace).value)
  {
    match trace
    case Start => InitInv(n);
    case Then(before, t, a) =>
      InvAlways(n, before);
      InvStep(Run(n, before).value, t, a);
  }

  lemma {:induction false} WakeAlways(n: nat, trace: Trace)
    requires Run(n, trace).Some? && WritesSucceed(trace)
    ensures NoFailure(Run(n, trace).value) && WakeInv(Run(n, trace).value)
  {
    match trace
    case Start => InitInv(n);
    case Then(before, t, a) =>
      InvAlways(n, before);
      WakeAlways(n, before);
      WakeStep(Run(n, before).value, t, a);
  }

  /** A run as the sequence of its states and of the moves between them. */
  datatype Move = Move(t: nat, a: Action)

  datatype Behaviour = Behaviour(states: seq<State>, moves: seq<Move>)

  predicate Moves(before: State, m: Move, after: State) {
    before.Shaped() && m.t < |before.pc| && Next(before, m.t, m.a) == Some(after)
  }

  ghost predicate Behaves(n: nat, b: Behaviour) {
    && |b.states| == |b.moves| + 1 && b.states[0] == Init(n)
    && forall i :: 0 <= i < |b.moves| ==> Moves(b.states[i], b.moves[i], b.states[i + 1])
  }

  ghost predicate NoWriteFails(b: Behaviour) {
    forall i :: 0 <= i < |b.moves| ==> !b.moves[i].a.WriteFails?
  }

  lemma {:induction false} BehaviourIsRun(n: nat, b: Behaviour, k: nat) returns (trace: Trace)
    requires Behaves(n, b) && k < |b.states|
    ensures Run(n, trace) == Some(b.states[k])
    ensures NoWriteFails(b) ==> WritesSucceed(trace)
  {
    hide Next;
    if k == 0 {
      trace := Start;
    } else {
      var before := BehaviourIsRun(n, b, k - 1);
      trace := Then(before, b.moves[k - 1].t, b.moves[k - 1].a);
      assert Moves(b.states[k - 1], b.moves[k - 1], b.states[k]);
    }
  }

  /** All invariants hold in every state of every behaviour. */
  lemma BehaviourInv(n: nat, b: Behaviour, k: nat)
    requires Behaves(n, b) && k < |b.states|
    ensures Inv(b.states[k]) && |b.states[k].pc| == n
    ensures NoWriteFails(b) ==> WakeInv(b.states[k])
  {
    hide Inv, WakeInv, NoFailure, Behaves, NoWriteFails;
    var trace := BehaviourIsRun(n, b, k);
    InvAlways(n, trace);
    if WritesSucceed(trace) { WakeAlways(n, trace); }
  }

  /** No lost wakeup: in every run whose control-pipe writes succeed, a thread
      asleep in libusb_wait_for_event has another thread that still owes it a
      broadcast; if its own completion flag is already set, that thread has run
      the callback and is just about to broadcast. */
  lemma NoLostWakeup(n: nat, b: Behaviour, k: nat, t: nat)
    requires Behaves(n, b) && NoWriteFails(b) && k < |b.states|
    requires t < |b.states[k].pc| && b.states[k].pc[t].Asleep?
    ensures var s := b.states[k];
      && s.Shaped()
      && exists u :: 0 <= u < |s.pc| && u != t && Owes(s.pc[u]) && (s.watch[t] && s.done[t] ==> Announcing(s.pc[u]))
  {
    hide Behaves, NoWriteFails;
    var s := b.states[k];
    BehaviourInv(n, b, k);
    if s.watch[t] && s.done[t] {
      assert PastDoneCheck(s.pc[t]);
      var u :| 0 <= u < |s.pc| && Announcing(s.pc[u]);
      assert Owes(s.pc[u]);
    } else {
      assert Sleeping(s.pc[t]);
      var u :| 0 <= u < |s.pc| && Owes(s.pc[u]);
      assert u != t;
    }
  }

  /** pollfd_modify counts the threads inside open/close sections and the control
      pipe holds one byte for each thread between its write and its read; so while a
      thread is blocked on events_lock after its write the pipe is readable. */
  lemma ModifierProtocol(n: nat, b: Behaviour, k: nat)
    requires Behaves(n, b) && k < |b.states|
    ensures var s := b.states[k];
      && s.sh.pollfdModify == Count(InSection, s.pc)
      && s.sh.pipe == Count(WroteNotRead, s.pc)
      && (forall u :: 0 <= u < |s.pc| && s.pc[u].ModifyLock? ==> s.sh.pipe > 0)
  {
    hide Behaves, NoWriteFails;
    BehaviourInv(n, b, k);
    var s := b.states[k];
    forall u | 0 <= u < |s.pc| && s.pc[u].ModifyLock?
      ensures s.sh.pipe > 0
    {
      CountMember(WroteNotRead, s.pc, u);
    }
  }

  /** So no poll can block on it: the step of a polling thread is enabled. */
  lemma BlockedModifierEndsPoll(s: State, u: nat, v: nat)
    requires s.Shaped() && CountInv(s) && u < |s.pc| && v < |s.pc| && s.pc[u].ModifyLock? && s.pc[v].Polling?
    ensures Next(s, v, Internal).Some?
  {
    CountMember(WroteNotRead, s.pc, u);
  }

  /** The backend closes the device with events_lock held exactly when the write
      to the control pipe succeeded; then no thread is inside handle_events. */
  lemma CloseExcludesHandlers(n: nat, b: Behaviour, k: nat, u: nat)
    requires Behaves(n, b) && k < |b.states| && u < |b.states[k].pc| && b.states[k].pc[u].BackendClose?
    ensures var s := b.states[k];
      && (s.sh.owner == Some(u) <==> !s.pc[u].failed)
      && (!s.pc[u].failed ==> forall v :: 0 <= v < |s.pc| ==> !InHandleEvents(s.pc[v]))
  {
    hide Behaves, NoWriteFails;
    BehaviourInv(n, b, k);
    BackendCloseHolds(b.states[k], u);
  }

  lemma BackendCloseHolds(s: State, u: nat)
    requires LockInv(s) && u < |s.pc| && s.pc[u].BackendClose?
    ensures s.sh.owner == Some(u) <==> !s.pc[u].failed
    ensures !s.pc[u].failed ==> forall v :: 0 <= v < |s.pc| ==> !InHandleEvents(s.pc[v])
  {
    assert HoldsAs(u, s.pc[u], s.sh);
    forall v | 0 <= v < |s.pc| && !s.pc[u].failed
      ensures !InHandleEvents(s.pc[v])
    {
      assert HoldsAs(v, s.pc[v], s.sh);
    }
  }

  /** At most one thread is inside handle_events. */
  lemma HandlersExclusive(n: nat, b: Behaviour, k: nat, u: nat, v: nat)
    requires Behaves(n, b) && k < |b.states| && u < |b.states[k].pc| && v < |b.states[k].pc|
    requires InHandleEvents(b.states[k].pc[u]) && InHandleEvents(b.states[k].pc[v])
    ensures u == v
  {
    hide Behaves, NoWriteFails;
    BehaviourInv(n, b, k);
    var s := b.states[k];
    assert HoldsAs(u, s.pc[u], s.sh);
    assert HoldsAs(v, s.pc[v], s.sh);
  }

  /** A thread in the middle of an operation that can go on by itself. */
  predicate CanMove(s: State, u: nat)
    requires s.Shaped() && u < |s.pc|
  {
    !s.pc[u].Idle? && Next(s, u, Internal).Some?
  }

  /** The holder of event_waiters_lock never blocks. */
  lemma WaitersHolderMoves(s: State, w: nat)
    requires s.Shaped() && w < |s.pc| && HoldsWaiters(s.pc[w])
    ensures CanMove(s, w)
  {
  }

  /** With event_waiters_lock free, only the events lock, the pipe and the poll can block. */
  lemma ThreadMoves(s: State, t: nat)
    requires Inv(s) && t < |s.pc| && s.sh.waiters.None?
    requires !s.pc[t].Idle? && !s.pc[t].Asleep? && !s.pc[t].Polling?
    requires s.sh.owner.None? || s.sh.owner == Some(t)
    ensures CanMove(s, t)
  {
    assert HoldsAs(t, s.pc[t], s.sh);
    if InSection(s.pc[t]) { CountMember(InSection, s.pc, t); }
    if WroteNotRead(s.pc[t]) { CountMember(WroteNotRead, s.pc, t); }
    if OnEventsLock(s.pc[t]) {
      LockSideMoves(t, s.pc[t], s.watch[t] && s.done[t], s.sh);
    }
  }

  lemma LockSideMoves(t: nat, p: PC, seen: bool, sh: Shared)
    requires OnEventsLock(p) && !p.Idle? && !p.Polling? && HoldsAs(t, p, sh)
    requires (sh.owner.None? || sh.owner == Some(t)) && (sh.owner.Some? ==> sh.depth > 0)
    requires (InSection(p) ==> sh.pollfdModify > 0) && (WroteNotRead(p) ==> sh.pipe > 0)
    ensures Local(t, p, seen, sh, Internal).Some?
  {
  }

  /** No deadlock, failed writes included: while some thread is in an operation
      and awake, a thread can go on by itself or one is polling. */
  lemma NoDeadlock(n: nat, b: Behaviour, k: nat, t: nat)
    requires Behaves(n, b) && k < |b.states| && t < |b.states[k].pc|
    requires !b.states[k].pc[t].Idle? && !b.states[k].pc[t].Asleep?
    ensures var s := b.states[k];
      && s.Shaped()
      && exists u :: 0 <= u < |s.pc| && (CanMove(s, u) || s.pc[u].Polling?)
  {
    hide Behaves, NoWriteFails;
    BehaviourInv(n, b, k);
    var s := b.states[k];
    if s.sh.waiters.Some? {
      WaitersHolderMoves(s, s.sh.waiters.value);
    } else {
      var u := if s.sh.owner.Some? then s.sh.owner.value else t;
      assert HoldsAs(u, s.pc[u], s.sh);
      if !s.pc[u].Polling? { ThreadMoves(s, u); }
    }
  }

  // ---------------------------------------------------------------------
  // A sleeper can always be woken by the other threads' own steps

  /** `longer` continues `trace` with moves in which no operation starts, no write
      fails, thread t does nothing and nothing comes from outside except that a
      poll returns. */
  predicate Unprompted(n: nat, t: nat, trace: Trace, longer: Trace) {
    longer == trace ||
    (longer.Then? && Unprompted(n, t, trace, longer.before)
     && longer.t != t && longer.t < n && Run(n, longer.before).Some?
     && (longer.a.Internal?
         || (longer.a.External? && Run(n, longer.before).value.pc[longer.t].Polling?)))
  }

  lemma {:induction false} UnpromptedTrans(n: nat, t: nat, a: Trace, b: Trace, c: Trace)
    requires Unprompted(n, t, a, b) && Unprompted(n, t, b, c)
    ensures Unprompted(n, t, a, c)
  {
    if b != c { UnpromptedTrans(n, t, a, b, c.before); }
  }

  /** An upper bound on the thread's own steps to its next broadcast. */
  function Rank(p: PC): nat {
    match p
    case BroadcastSend(_) => 1
    case BroadcastLock(_) => 2
    case Release => 3
    case CloseRelease(_) => 3
    case Deactivate => 4
    case CloseDeactivate(_) => 4
    case Dispatch(_) => 5
    case ModifyDec => 5
    case CloseRemove(_) => 5
    case Polling(_) => 6
    case BackendClose(_) => 6
    case CloseActivate(_) => 6
    case BroadcastUnlock(k) => if k.ThenDispatch? then 6 else 7
    case CheckCompleted(_) => 7
    case CloseLock(_) => 7
    case Activate(_) => 8
    case ModifyRead(_) => 8
    case ModifyActivate(_) => 9
    case ModifyLock(_) => 10
    case ModifyWrite(_) => 11
    case _ => 0
  }

  /** The same for handing back event_waiters_lock. */
  function WaitersRank(s: State): nat {
    if s.sh.waiters.None? || s.sh.waiters.value >= |s.pc| then 0 else HolderRank(s.pc[s.sh.waiters.value])
  }

  function HolderRank(p: PC): nat {
    match p
    case CheckDone => 4
    case CheckModify => 3
    case CheckActive => 2
    case _ => 1
  }

  function DriveAction(p: PC): Action {
    if p.Polling? then External else Internal
  }

  lemma RankFalls(t: nat, p: PC, seen: bool, sh: Shared)
    requires Owes(p) && !FailedPC(p) && !p.BroadcastSend? && Local(t, p, seen, sh, DriveAction(p)).Some?
    ensures var e := Local(t, p, seen, sh, DriveAction(p)).value;
      Rank(e.pc) < Rank(p) && Owes(e.pc) && !e.wake
  {
    if OnEventsLock(p) {
      if !p.Polling? && !p.Dispatch? { LockSideRank(t, p, seen, sh); }
    }
  }

  lemma LockSideRank(t: nat, p: PC, seen: bool, sh: Shared)
    requires Owes(p) && !FailedPC(p) && OnEventsLock(p) && LockSide(t, p, seen, sh).Some?
    requires !p.Dispatch?
    ensures var e := LockSide(t, p, seen, sh).value;
      Rank(e.pc) < Rank(p) && Owes(e.pc)
  {
  }

  lemma HolderRankFalls(t: nat, p: PC, seen: bool, sh: Shared)
    requires HoldsWaiters(p) && !p.BroadcastSend?
    ensures Local(t, p, seen, sh, Internal).Some?
    ensures var e := Local(t, p, seen, sh, Internal).value;
      && !e.wake
      && (e.sh.waiters.None? || (e.sh.waiters == sh.waiters && HolderRank(e.pc) < HolderRank(p)))
      && (Owes(p) && !FailedPC(p) ==> Owes(e.pc) && Rank(e.pc) < Rank(p))
  {
  }

  lemma StepAll(s: State, u: nat, a: Action)
    requires Inv(s) && NoFailure(s) && WakeInv(s) && u < |s.pc| && Next(s, u, a).Some? && !a.WriteFails?
    ensures Inv(Next(s, u, a).value) && NoFailure(Next(s, u, a).value)
  {
    InvStep(s, u, a);
    WakeStep(s, u, a);
  }

  /** In state s, thread t sleeps and thread u owes a broadcast. */
  ghost predicate Indebted(s: State, t: nat, u: nat) {
    Inv(s) && NoFailure(s) && t < |s.pc| && s.pc[t].Asleep? && u < |s.pc| && Owes(s.pc[u])
  }

  /** The holder of event_waiters_lock moves first, then the thread in debt, or
      the holder of events_lock when the thread in debt waits for that lock. */
  lemma {:induction false} Drive(n: nat, trace: Trace, s: State, t: nat, u: nat) returns (longer: Trace)
    requires Run(n, trace) == Some(s) && Indebted(s, t, u)
    ensures Unprompted(n, t, trace, longer)
    ensures Run(n, longer).Some? && Run(n, longer).value.pc[t] == Woken
    decreases Rank(s.pc[u]), WaitersRank(s)
  {
    if s.sh.waiters.Some? {
      var w := s.sh.waiters.value;
      assert HoldsWaiters(s.pc[w]);
      if s.pc[w].BroadcastSend? {
        longer := BroadcastWakes(n, trace, s, t, w);
      } else {
        var s' := HolderStep(s, t, u, w);
        longer := DriveOn(n, trace, s, t, u, w, Internal, s');
      }
    } else if s.pc[u].ModifyLock? && s.sh.owner.Some? {
      var v := s.sh.owner.value;
      assert HoldsAs(v, s.pc[v], s.sh);
      OwnerRank(s.pc[v]);
      longer := Drive(n, trace, s, t, v);
    } else {
      var s' := DebtorStep(s, t, u);
      longer := DriveOn(n, trace, s, t, u, u, DriveAction(s.pc[u]), s');
    }
  }

  /** One move of thread m, and on from there. */
  lemma {:induction false} DriveOn(n: nat, trace: Trace, s: State, t: nat, u: nat, m: nat, a: Action, s': State)
      returns (longer: Trace)
    requires Run(n, trace) == Some(s) && t < n && u < n && m < n && m != t && Next(s, m, a) == Some(s')
    requires a.Internal? || (a.External? && s.pc[m].Polling?)
    requires Indebted(s', t, u)
    requires Rank(s'.pc[u]) < Rank(s.pc[u]) || (s'.pc[u] == s.pc[u] && WaitersRank(s') < WaitersRank(s))
    ensures Unprompted(n, t, trace, longer)
    ensures Run(n, longer).Some? && Run(n, longer).value.pc[t] == Woken
    decreases Rank(s.pc[u]), WaitersRank(s), 0
  {
    var next := Then(trace, m, a);
    longer := Drive(n, next, s', t, u);
    UnpromptedTrans(n, t, trace, next, longer);
  }

  lemma BroadcastWakes(n: nat, trace: Trace, s: State, t: nat, w: nat) returns (longer: Trace)
    requires Run(n, trace) == Some(s) && t < n && w < n && s.pc[t].Asleep? && s.pc[w].BroadcastSend?
    ensures Unprompted(n, t, trace, longer)
    ensures Run(n, longer).Some? && Run(n, longer).value.pc[t] == Woken
  {
    longer := Then(trace, w, Internal);
  }

  lemma OwnerRank(p: PC)
    requires HoldDepth(p) > 0
    ensures Rank(p) < 10 && Owes(p)
  {
  }

  lemma HolderStep(s: State, t: nat, u: nat, w: nat) returns (s': State)
    requires Indebted(s, t, u)
    requires s.sh.waiters == Some(w) && w < |s.pc| && HoldsWaiters(s.pc[w]) && !s.pc[w].BroadcastSend?
    ensures Next(s, w, Internal) == Some(s') && Indebted(s', t, u)
    ensures Rank(s'.pc[u]) < Rank(s.pc[u]) || (s'.pc[u] == s.pc[u] && WaitersRank(s') < WaitersRank(s))
  {
    HolderRankFalls(w, s.pc[w], s.watch[w] && s.done[w], s.sh);
    var e := Local(w, s.pc[w], s.watch[w] && s.done[w], s.sh, Internal).value;
    HolderMeasure(s, t, u, w, e);
    s' := Apply(s, w, e);
    assert WakeInv(s);
    StepAll(s, w, Internal);
  }

  lemma HolderMeasure(s: State, t: nat, u: nat, w: nat, e: Effect)
    requires s.Shaped() && NoFailure(s) && t < |s.pc| && s.pc[t].Asleep? && u < |s.pc| && Owes(s.pc[u])
    requires s.sh.waiters == Some(w) && w < |s.pc| && HoldsWaiters(s.pc[w]) && !e.wake
    requires e.sh.waiters.None? || (e.sh.waiters == s.sh.waiters && HolderRank(e.pc) < HolderRank(s.pc[w]))
    requires Owes(s.pc[w]) && !FailedPC(s.pc[w]) ==> Owes(e.pc) && Rank(e.pc) < Rank(s.pc[w])
    ensures var s' := Apply(s, w, e);
      && s'.pc[t].Asleep? && Owes(s'.pc[u])
      && (Rank(s'.pc[u]) < Rank(s.pc[u]) || (s'.pc[u] == s.pc[u] && WaitersRank(s') < WaitersRank(s)))
  {
    assert HolderRank(s.pc[w]) > 0;
  }

  lemma DebtorStep(s: State, t: nat, u: nat) returns (s': State)
    requires Indebted(s, t, u)
    requires s.sh.waiters.None? && !(s.pc[u].ModifyLock? && s.sh.owner.Some?)
    ensures Next(s, u, DriveAction(s.pc[u])) == Some(s') && Indebted(s', t, u)
    ensures Rank(s'.pc[u]) < Rank(s.pc[u])
  {
    var a := DriveAction(s.pc[u]);
    assert HoldsAs(u, s.pc[u], s.sh) && (HoldsWaiters(s.pc[u]) <==> s.sh.waiters == Some(u));
    if !s.pc[u].Polling? && (s.sh.owner.None? || s.sh.owner == Some(u)) { ThreadMoves(s, u); }
    assert Next(s, u, a).Some?;
    RankFalls(u, s.pc[u], s.watch[u] && s.done[u], s.sh);
    s' := Apply(s, u, Local(u, s.pc[u], s.watch[u] && s.done[u], s.sh, a).value);
    assert WakeInv(s);
    StepAll(s, u, a);
  }

  lemma TraceCanWake(n: nat, trace: Trace, t: nat) returns (longer: Trace)
    requires Run(n, trace).Some? && WritesSucceed(trace)
    requires t < n && Run(n, trace).value.pc[t].Asleep?
    ensures Unprompted(n, t, trace, longer)
    ensures Run(n, longer).Some? && Run(n, longer).value.pc[t] == Woken
  {
    InvAlways(n, trace);
    WakeAlways(n, trace);
    var s := Run(n, trace).value;
    assert Sleeping(s.pc[t]);
    var u :| 0 <= u < n && Owes(s.pc[u]);
    longer := Drive(n, trace, s, t, u);
  }

  /** A move of another thread that starts no operation and needs nothing from outside
      but the return of a poll.  That a dedicated handler stops after a round of
      events counts as a move of its own. */
  predicate Quiet(t: nat, s: State, m: Move) {
    m.t != t && (m.a.Internal? || (m.a.External? && m.t < |s.pc| && s.pc[m.t].Polling?))
  }

  /** `longer` is b and then only quiet moves. */
  ghost predicate Continues(t: nat, b: Behaviour, longer: Behaviour) {
    && b.states <= longer.states && b.moves <= longer.moves && |longer.states| == |longer.moves| + 1
    && forall i :: |b.moves| <= i < |longer.moves| ==> Quiet(t, longer.states[i], longer.moves[i])
  }

  lemma {:induction false} LongerBehaviour(n: nat, t: nat, b: Behaviour, trace: Trace, longer: Trace)
      returns (c: Behaviour)
    requires Behaves(n, b) && Run(n, trace) == Some(b.states[|b.moves|])
    requires Unprompted(n, t, trace, longer) && Run(n, longer).Some?
    ensures Behaves(n, c) && Continues(t, b, c) && c.states[|c.moves|] == Run(n, longer).value
    decreases longer
  {
    hide Next;
    if longer == trace {
      c := b;
    } else {
      var d := LongerBehaviour(n, t, b, trace, longer.before);
      var m := Move(longer.t, longer.a);
      c := Behaviour(d.states + [Run(n, longer).value], d.moves + [m]);
      assert Moves(d.states[|d.moves|], m, Run(n, longer).value);
      assert Quiet(t, d.states[|d.moves|], m);
      Extended(n, t, b, d, m, Run(n, longer).value);
    }
  }

  lemma Extended(n: nat, t: nat, b: Behaviour, d: Behaviour, m: Move, s: State)
    requires Behaves(n, d) && Continues(t, b, d)
    requires Moves(d.states[|d.moves|], m, s) && Quiet(t, d.states[|d.moves|], m)
    ensures var c := Behaviour(d.states + [s], d.moves + [m]);
      Behaves(n, c) && Continues(t, b, c)
  {
    hide Moves, Quiet;
    var c := Behaviour(d.states + [s], d.moves + [m]);
    forall i | 0 <= i < |c.moves|
      ensures Moves(c.states[i], c.moves[i], c.states[i + 1])
      ensures i >= |b.moves| ==> Quiet(t, c.states[i], c.moves[i])
    {
      if i < |d.moves| {
        assert Moves(d.states[i], d.moves[i], d.states[i + 1]);
      }
    }
  }

  /** From every state that a run without failed writes can reach, the other threads
      can wake a sleeping thread by a broadcast: no operation has to start, no
      write fails, and nothing outside has to happen but that polls return. */
  lemma SleeperCanBeWoken(n: nat, b: Behaviour, t: nat) returns (longer: Behaviour)
    requires Behaves(n, b) && NoWriteFails(b)
    requires t < |b.states[|b.moves|].pc| && b.states[|b.moves|].pc[t].Asleep?
    ensures Behaves(n, longer) && Continues(t, b, longer)
    ensures t < |longer.states[|longer.moves|].pc| && longer.states[|longer.moves|].pc[t] == Woken
  {
    hide Run, Unprompted, NoWriteFails;
    BehaviourInv(n, b, |b.moves|);
    var trace := BehaviourIsRun(n, b, |b.moves|);
    var more := TraceCanWake(n, trace, t);
    longer := LongerBehaviour(n, t, b, trace, more);
  }
}
