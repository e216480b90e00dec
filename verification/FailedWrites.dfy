/** What failed writes to the control pipe cost in the event protocol (core.c): exactly
    when a run leaves a sleeping thread that nobody will wake. */
module FailedWrites {
  import opened EventProtocol
  import opened Options

  /** A thread sleeps, or has decided to, and no thread owes it a broadcast. */
  ghost predicate Stranded(s: State) {
    && (exists t :: 0 <= t < |s.pc| && Sleeping(s.pc[t]))
    && (forall u :: 0 <= u < |s.pc| ==> !Owes(s.pc[u]))
  }

  // ---------------------------------------------------------------------
  // One step

  /** A thread inside a pollfd_modify section whose write failed and whose broadcast, if
      it makes one, is behind it. */
  predicate Spent(p: PC) {
    p.FailedDec? || p == BackendClose(true) || p == BroadcastUnlock(ThenBackendClose(true))
  }

  /** These are all the threads that keep pollfd_modify up and owe nothing. */
  lemma SpentExactly(p: PC)
    ensures Spent(p) <==> InSection(p) && !Owes(p)
  {
  }

  ghost predicate OthersOweNothing(s: State, t: nat) {
    forall u :: 0 <= u < |s.pc| && u != t ==> !Owes(s.pc[u])
  }

  ghost predicate SomeoneSleeps(s: State) {
    exists u :: 0 <= u < |s.pc| && Sleeping(s.pc[u])
  }

  /** The steps that strand a thread, with nobody else in debt: the write of an opener
      fails while a thread sleeps, or a thread finds pollfd_modify set. */
  ghost predicate Strands(s: State, t: nat, a: Action) {
    t < |s.pc| && OthersOweNothing(s, t)
    && ((s.pc[t] == ModifyWrite(false) && a.WriteFails? && SomeoneSleeps(s))
        || (s.pc[t].CheckModify? && s.sh.pollfdModify > 0))
  }

  /** The steps that end it: a thread gets the events lock to handle events or starts to
      open or close a device, or the only sleeper wakes for another reason. */
  ghost predicate Rescues(s: State, t: nat, a: Action) {
    t < |s.pc|
    && (s.pc[t].TryLock? || s.pc[t].LockEvents? || s.pc[t].ModifyInc?
        || (s.pc[t].Asleep? && forall u :: 0 <= u < |s.pc| && u != t ==> !Sleeping(s.pc[u])))
  }

  /** A debt is lost without a broadcast only in an opener's failed write. */
  lemma DebtLost(t: nat, p: PC, seen: bool, sh: Shared, a: Action)
    requires Local(t, p, seen, sh, a).Some? && Owes(p)
    ensures var e := Local(t, p, seen, sh, a).value;
      !Owes(e.pc) && !e.wake <==> p == ModifyWrite(false) && a.WriteFails?
  {
    LocalDuties(t, p, seen, sh, a);
  }

  lemma FallsAsleep(t: nat, p: PC, seen: bool, sh: Shared, a: Action)
    requires Local(t, p, seen, sh, a).Some? && !Sleeping(p)
    ensures Sleeping(Local(t, p, seen, sh, a).value.pc)
       <==> (p.CheckModify? && sh.pollfdModify > 0) || (p.CheckActive? && sh.active)
  {
    hide LockSide;
    LockSideAwake(t, p, seen, sh);
  }

  lemma LockSideAwake(t: nat, p: PC, seen: bool, sh: Shared)
    ensures LockSide(t, p, seen, sh).Some? ==> !Sleeping(LockSide(t, p, seen, sh).value.pc)
  {
  }

  /** With events_lock free, the steps that bring a thread without debt into debt. */
  lemma FallsIntoDebt(t: nat, p: PC, seen: bool, sh: Shared, a: Action)
    requires Local(t, p, seen, sh, a).Some? && !Owes(p) && sh.owner.None?
    ensures Owes(Local(t, p, seen, sh, a).value.pc) <==> p.TryLock? || p.LockEvents? || p.ModifyInc?
  {
    hide LockSide, WaitSide;
    LockSideDebt(t, p, seen, sh);
    WaitSideDebt(t, p, seen, sh);
  }

  lemma LockSideDebt(t: nat, p: PC, seen: bool, sh: Shared)
    requires !Owes(p) && sh.owner.None?
    ensures LockSide(t, p, seen, sh).Some? ==>
              (Owes(LockSide(t, p, seen, sh).value.pc) <==> p.TryLock? || p.LockEvents? || p.ModifyInc?)
  {
  }

  lemma WaitSideDebt(t: nat, p: PC, seen: bool, sh: Shared)
    requires !Owes(p)
    ensures WaitSide(t, p, seen, sh).Some? ==> !Owes(WaitSide(t, p, seen, sh).value.pc)
    ensures WaitSide(t, p, seen, sh).Some? ==> !WaitSide(t, p, seen, sh).value.wake
    ensures WaitSide(t, p, seen, sh).Some? ==> !(p.TryLock? || p.LockEvents? || p.ModifyInc?)
  {
  }

  /** Without a debt there is no broadcast. */
  lemma NoDebtNoWake(t: nat, p: PC, seen: bool, sh: Shared, a: Action)
    requires Local(t, p, seen, sh, a).Some? && !Owes(p)
    ensures !Local(t, p, seen, sh, a).value.wake
  {
    hide LockSide, WaitSide;
    WaitSideDebt(t, p, seen, sh);
  }

  /** A sleeper leaves only when it is woken or for an outside reason. */
  lemma SleeperLeaves(t: nat, p: PC, seen: bool, sh: Shared, a: Action)
    requires Local(t, p, seen, sh, a).Some? && Sleeping(p)
    ensures Sleeping(Local(t, p, seen, sh, a).value.pc) <==> p.Sleep?
  {
  }

  ghost function EffectOf(s: State, t: nat, a: Action): Effect
    requires s.Shaped() && t < |s.pc| && Next(s, t, a).Some?
  {
    Local(t, s.pc[t], s.watch[t] && s.done[t], s.sh, a).value
  }

  lemma StrandsStrand(s: State, t: nat, a: Action)
    requires s.Shaped() && Strands(s, t, a) && Next(s, t, a).Some?
    ensures Stranded(Next(s, t, a).value)
  {
    var p, e := s.pc[t], EffectOf(s, t, a);
    var s' := Apply(s, t, e);
    if p == ModifyWrite(false) && a.WriteFails? {
      assert e == Effect(FailedDec, s.sh, Keep, false);
      var u :| 0 <= u < |s.pc| && Sleeping(s.pc[u]);
      assert Sleeping(s'.pc[u]);
    } else {
      assert e == Effect(PC.Sleep, s.sh, Keep, false);
      assert Sleeping(s'.pc[t]);
    }
  }

  /** From a state in which nobody is stranded, a step strands a thread exactly under
      that condition. */
  lemma StrandedStepExactly(s: State, t: nat, a: Action)
    requires Inv(s) && t < |s.pc| && Next(s, t, a).Some? && !Stranded(s)
    ensures Stranded(Next(s, t, a).value) <==> Strands(s, t, a)
  {
    hide Local, Next;
    var p, seen, e := s.pc[t], s.watch[t] && s.done[t], EffectOf(s, t, a);
    NextApplies(s, t, a);
    if Strands(s, t, a) {
      StrandsStrand(s, t, a);
    } else if Stranded(Apply(s, t, e)) {
      LocalDuties(t, p, seen, s.sh, a);
      if Owes(p) { DebtLost(t, p, seen, s.sh, a); }
      if !Sleeping(p) { FallsAsleep(t, p, seen, s.sh, a); }
      Unaccounted(s, t, a, e);
    }
  }

  lemma NextApplies(s: State, t: nat, a: Action)
    requires s.Shaped() && t < |s.pc| && Next(s, t, a).Some?
    ensures Local(t, s.pc[t], s.watch[t] && s.done[t], s.sh, a).Some?
    ensures Next(s, t, a) == Some(Apply(s, t, EffectOf(s, t, a)))
  {
  }

  /** No other step does: whoever slept before had somebody in debt, who still is. */
  lemma Unaccounted(s: State, t: nat, a: Action, e: Effect)
    requires Inv(s) && t < |s.pc| && !Stranded(s) && !Strands(s, t, a)
    requires DutyEffect(s.pc[t], s.watch[t] && s.done[t], s.sh, e)
    requires Owes(s.pc[t]) && !Owes(e.pc) && !e.wake ==> s.pc[t] == ModifyWrite(false) && a.WriteFails?
    requires !Sleeping(s.pc[t]) && Sleeping(e.pc) ==>
               (s.pc[t].CheckModify? && s.sh.pollfdModify > 0) || (s.pc[t].CheckActive? && s.sh.active)
    ensures !Stranded(Apply(s, t, e))
  {
    var s' := Apply(s, t, e);
    if e.wake {
      BroadcastLeavesNoSleeper(s, t, e);
      assert forall u :: 0 <= u < |s'.pc| ==> !PastDoneCheck(s'.pc[u]);
    } else if x :| 0 <= x < |s'.pc| && Sleeping(s'.pc[x]) {
      assert forall u :: 0 <= u < |s.pc| && u != t ==> s'.pc[u] == s.pc[u];
      assert Sleeping(s.pc[x]) ==> SomeoneSleeps(s);
      if s.pc[t].CheckActive? && s.sh.active {
        var u := s.sh.owner.value;
        assert HoldsAs(u, s.pc[u], s.sh) && HoldsAs(t, s.pc[t], s.sh);
        assert Owes(s'.pc[u]);
      } else if u :| 0 <= u < |s.pc| && u != t && Owes(s.pc[u]) {
        assert Owes(s'.pc[u]);
      } else if Owes(e.pc) {
        assert Owes(s'.pc[t]);
      }
    }
  }

  /** And it lasts until exactly one of the steps that end it. */
  lemma RescuedStepExactly(s: State, t: nat, a: Action)
    requires Inv(s) && t < |s.pc| && Next(s, t, a).Some? && Stranded(s)
    ensures !Stranded(Next(s, t, a).value) <==> Rescues(s, t, a)
  {
    hide Local, Next;
    var p, seen, e := s.pc[t], s.watch[t] && s.done[t], EffectOf(s, t, a);
    NextApplies(s, t, a);
    StrandedUnlocked(s);
    assert !Owes(p);
    FallsIntoDebt(t, p, seen, s.sh, a);
    NoDebtNoWake(t, p, seen, s.sh, a);
    if Sleeping(p) { SleeperLeaves(t, p, seen, s.sh, a); }
    StillStranded(s, t, e);
  }

  lemma StrandedUnlocked(s: State)
    requires LockInv(s)
    ensures s.sh.owner.Some? ==> !Stranded(s)
  {
    if s.sh.owner.Some? {
      var u := s.sh.owner.value;
      assert HoldsAs(u, s.pc[u], s.sh);
      assert Owes(s.pc[u]);
    }
  }

  lemma StillStranded(s: State, t: nat, e: Effect)
    requires s.Shaped() && t < |s.pc| && Stranded(s) && !e.wake
    requires Owes(e.pc) <==> s.pc[t].TryLock? || s.pc[t].LockEvents? || s.pc[t].ModifyInc?
    requires Sleeping(s.pc[t]) ==> (Sleeping(e.pc) <==> s.pc[t].Sleep?)
    ensures !Stranded(Apply(s, t, e)) <==> Rescues(s, t, Internal)
  {
    var s' := Apply(s, t, e);
    assert s'.pc[t] == e.pc && forall u :: 0 <= u < |s.pc| && u != t ==> s'.pc[u] == s.pc[u];
    var x :| 0 <= x < |s.pc| && Sleeping(s.pc[x]);
    if u :| 0 <= u < |s.pc| && u != t && Sleeping(s.pc[u]) {
      assert Sleeping(s'.pc[u]);
    } else {
      assert x == t;
      if s.pc[t].Sleep? { assert Sleeping(s'.pc[t]); }
    }
    if Owes(e.pc) { assert Owes(s'.pc[t]); }
  }

  // ---------------------------------------------------------------------
  // Whole runs

  /** The j-th move is the first to strand a thread and none up to the k-th state ends it. */
  ghost predicate StrandedSince(b: Behaviour, j: nat, k: nat)
    requires |b.states| == |b.moves| + 1
  {
    && j < k < |b.states| && !Stranded(b.states[j]) && Strands(b.states[j], b.moves[j].t, b.moves[j].a)
    && forall i :: j < i < k ==> !Rescues(b.states[i], b.moves[i].t, b.moves[i].a)
  }

  lemma MoveAt(n: nat, b: Behaviour, i: nat)
    requires Behaves(n, b) && i < |b.moves|
    ensures Inv(b.states[i]) && b.moves[i].t < |b.states[i].pc|
    ensures Next(b.states[i], b.moves[i].t, b.moves[i].a) == Some(b.states[i + 1])
  {
    BehaviourInv(n, b, i);
    assert Moves(b.states[i], b.moves[i], b.states[i + 1]);
  }

  lemma StartNotStranded(n: nat)
    ensures !Stranded(Init(n))
  {
  }

  lemma SinceStep(b: Behaviour, j: nat, k: nat)
    requires |b.states| == |b.moves| + 1 && j < k < |b.states|
    ensures var i := k - 1;
      StrandedSince(b, j, k)
      <==> if j == i then !Stranded(b.states[i]) && Strands(b.states[i], b.moves[i].t, b.moves[i].a)
           else StrandedSince(b, j, i) && !Rescues(b.states[i], b.moves[i].t, b.moves[i].a)
  {
    hide Stranded, Strands, Rescues;
  }

  /** Exactly when a thread is stranded: some earlier move met the condition, and no move
      since then is one that ends it. */
  lemma {:induction false} StrandedExactly(n: nat, b: Behaviour, k: nat)
    requires Behaves(n, b) && k < |b.states|
    ensures Stranded(b.states[k]) <==> exists j :: 0 <= j < k && StrandedSince(b, j, k)
  {
    hide Stranded, Strands, Rescues, Inv, Next, StrandedSince;
    if k == 0 {
      StartNotStranded(n);
    } else {
      var i := k - 1;
      var s, m := b.states[i], b.moves[i];
      StrandedExactly(n, b, i);
      MoveAt(n, b, i);
      forall j | 0 <= j < k
        ensures StrandedSince(b, j, k)
           <==> if j == i then !Stranded(s) && Strands(s, m.t, m.a)
                else StrandedSince(b, j, i) && !Rescues(s, m.t, m.a)
      {
        SinceStep(b, j, k);
      }
      if Stranded(s) {
        RescuedStepExactly(s, m.t, m.a);
        var j :| 0 <= j < i && StrandedSince(b, j, i);
        assert StrandedSince(b, j, k) <==> !Rescues(s, m.t, m.a);
      } else {
        StrandedStepExactly(s, m.t, m.a);
        assert StrandedSince(b, i, k) <==> Strands(s, m.t, m.a);
      }
    }
  }

  lemma {:induction false} CountSame(f: PC -> bool, g: PC -> bool, pc: seq<PC>)
    requires forall i :: 0 <= i < |pc| ==> f(pc[i]) == g(pc[i])
    ensures Count(f, pc) == Count(g, pc)
  {
    if pc != [] { CountSame(f, g, pc[1..]); }
  }

  /** With nobody in debt only threads with a failed write behind them keep
      pollfd_modify up. */
  lemma KeepersAreSpent(s: State)
    requires CountInv(s) && forall u :: 0 <= u < |s.pc| ==> !Owes(s.pc[u])
    ensures s.sh.pollfdModify == Count(Spent, s.pc)
  {
    forall i | 0 <= i < |s.pc|
      ensures InSection(s.pc[i]) == Spent(s.pc[i])
    {
      SpentExactly(s.pc[i]);
    }
    CountSame(InSection, Spent, s.pc);
  }

  /** Thread x goes to sleep because pollfd_modify is set, and only threads whose write
      failed and whose broadcast is behind them keep it set. */
  ghost predicate SleepsOnSpent(s: State, m: Move, x: nat) {
    m.t == x < |s.pc| && s.pc[x].CheckModify? && s.sh.pollfdModify == Count(Spent, s.pc) > 0
  }

  /** Thread x slept when the write of an opener failed. */
  ghost predicate SleptAtFailure(s: State, m: Move, x: nat) {
    x < |s.pc| && m.t < |s.pc| && s.pc[m.t] == ModifyWrite(false) && m.a.WriteFails? && Sleeping(s.pc[x])
  }

  /** Which threads can be stranded: those that slept when the write of an opener
      failed, and those that went to sleep later although only such threads kept
      pollfd_modify up. */
  lemma {:induction false} StrandedSleepers(n: nat, b: Behaviour, j: nat, k: nat, x: nat)
    requires Behaves(n, b) && j < k < |b.states| && StrandedSince(b, j, k)
    requires x < |b.states[k].pc| && Sleeping(b.states[k].pc[x])
    ensures SleptAtFailure(b.states[j], b.moves[j], x)
         || exists i :: j <= i < k && SleepsOnSpent(b.states[i], b.moves[i], x)
    decreases k
  {
    hide Stranded, Strands, Rescues, Inv, Next, StrandedSince, SleepsOnSpent, SleptAtFailure;
    var i := k - 1;
    var s, m := b.states[i], b.moves[i];
    MoveAt(n, b, i);
    SinceStep(b, j, k);
    if i == j {
      FirstSleepers(s, m, x);
      assert SleptAtFailure(s, m, x) || SleepsOnSpent(b.states[i], b.moves[i], x);
    } else {
      StrandedExactly(n, b, i);
      LaterSleepers(s, m, x);
      if Sleeping(s.pc[x]) {
        StrandedSleepers(n, b, j, i, x);
      } else {
        assert SleepsOnSpent(b.states[i], b.moves[i], x);
      }
    }
  }

  lemma FirstSleepers(s: State, m: Move, x: nat)
    requires Inv(s) && m.t < |s.pc| && Next(s, m.t, m.a).Some? && !Stranded(s) && Strands(s, m.t, m.a)
    requires x < |s.pc| && Sleeping(Next(s, m.t, m.a).value.pc[x])
    ensures SleptAtFailure(s, m, x) || SleepsOnSpent(s, m, x)
  {
    hide Local, Next;
    var e := EffectOf(s, m.t, m.a);
    NextApplies(s, m.t, m.a);
    if s.pc[m.t].CheckModify? {
      NoDebtNoWake(m.t, s.pc[m.t], s.watch[m.t] && s.done[m.t], s.sh, m.a);
      KeepersAreSpent(s);
    } else {
      FailedWrite(s, m.t);
    }
  }

  lemma FailedWrite(s: State, t: nat)
    requires s.Shaped() && t < |s.pc| && s.pc[t] == ModifyWrite(false)
    ensures Next(s, t, WriteFails) == Some(Apply(s, t, Effect(FailedDec, s.sh, Keep, false)))
  {
  }

  lemma LaterSleepers(s: State, m: Move, x: nat)
    requires Inv(s) && m.t < |s.pc| && Next(s, m.t, m.a).Some? && Stranded(s)
    requires x < |s.pc| && Sleeping(Next(s, m.t, m.a).value.pc[x])
    ensures Sleeping(s.pc[x]) || SleepsOnSpent(s, m, x)
  {
    hide Local, Next;
    var p, seen := s.pc[m.t], s.watch[m.t] && s.done[m.t];
    NextApplies(s, m.t, m.a);
    StrandedUnlocked(s);
    if !Sleeping(p) { FallsAsleep(m.t, p, seen, s.sh, m.a); }
    NoDebtNoWake(m.t, p, seen, s.sh, m.a);
    KeepersAreSpent(s);
  }

  // ---------------------------------------------------------------------
  // A failed open or close can strand a thread exactly when there are two

  /** The failed writes of a run are those of closing threads, or of opening ones. */
  ghost predicate FailsOnly(b: Behaviour, closing: bool) {
    |b.states| == |b.moves| + 1 &&
    forall i :: 0 <= i < |b.moves| && b.moves[i].a.WriteFails? ==>
      b.moves[i].t < |b.states[i].pc| && b.states[i].pc[b.moves[i].t] == ModifyWrite(closing)
  }

  /** A thread sleeps and all others are idle. */
  ghost predicate Abandoned(s: State) {
    exists t :: 0 <= t < |s.pc| && s.pc[t].Asleep? && forall u :: 0 <= u < |s.pc| && u != t ==> s.pc[u].Idle?
  }

  /** In the waiting half of libusb_handle_events_timeout_completed. */
  predicate Waiting(p: PC) {
    p.LockWaiters? || p.CheckDone? || p.CheckModify? || p.CheckActive? || p.RetryUnlock?
    || p.Sleep? || p.Asleep? || p.Woken? || p.UnlockWaiters?
  }

  /** A thread alone never waits. */
  lemma {:induction false} AloneNeverWaits(b: Behaviour, k: nat)
    requires Behaves(1, b) && k < |b.states|
    ensures |b.states[k].pc| == 1 && !Waiting(b.states[k].pc[0])
  {
    hide Inv, Next;
    BehaviourInv(1, b, k);
    if k > 0 {
      AloneNeverWaits(b, k - 1);
      MoveAt(1, b, k - 1);
      AloneStep(b.states[k - 1], b.moves[k - 1].a);
    }
  }

  lemma AloneStep(s: State, a: Action)
    requires Inv(s) && |s.pc| == 1 && !Waiting(s.pc[0]) && Next(s, 0, a).Some?
    ensures !Waiting(Next(s, 0, a).value.pc[0])
  {
    assert HoldsAs(0, s.pc[0], s.sh);
    assert s.pc == [s.pc[0]] && s.pc[1..] == [];
    assert Count(InSection, s.pc) == if InSection(s.pc[0]) then 1 else 0;
    AloneLocal(s.pc[0], s.watch[0] && s.done[0], s.sh, a);
  }

  lemma AloneLocal(p: PC, seen: bool, sh: Shared, a: Action)
    requires !Waiting(p) && Local(0, p, seen, sh, a).Some?
    requires p.TryModify? ==> sh.pollfdModify == 0
    requires p.TryLock? ==> sh.owner.None?
    ensures !Waiting(Local(0, p, seen, sh, a).value.pc)
  {
  }

  /** Thread 0 and thread 1 of n, the others being idle and none passing `completed`. */
  function Pair(n: nat, p0: PC, p1: PC, sh: Shared): State {
    State(seq(n, i => if i == 0 then p0 else if i == 1 then p1 else Idle), seq(n, i => false), seq(n, i => false), sh)
  }

  datatype Two = Two(p0: PC, p1: PC, sh: Shared)

  function TwoNext(w: Two, t: nat, a: Action): Option<Two>
    requires t < 2
  {
    match Local(t, if t == 0 then w.p0 else w.p1, false, w.sh, a)
    case None => None
    case Some(e) =>
      if e.flags.SetDone? || (e.flags.Begin? && e.flags.watch) || (e.wake && (w.p0.Asleep? || w.p1.Asleep?)) then None
      else Some(if t == 0 then Two(e.pc, w.p1, e.sh) else Two(w.p0, e.pc, e.sh))
  }

  lemma PairApply(n: nat, w: Two, t: nat, e: Effect)
    requires n >= 2 && t < 2 && !e.flags.SetDone? && (e.flags.Begin? ==> !e.flags.watch)
    requires e.wake ==> !w.p0.Asleep? && !w.p1.Asleep?
    ensures Apply(Pair(n, w.p0, w.p1, w.sh), t, e)
         == if t == 0 then Pair(n, e.pc, w.p1, e.sh) else Pair(n, w.p0, e.pc, e.sh)
  {
    var s' := Apply(Pair(n, w.p0, w.p1, w.sh), t, e);
    var s'' := if t == 0 then Pair(n, e.pc, w.p1, e.sh) else Pair(n, w.p0, e.pc, e.sh);
    assert forall i :: 0 <= i < n ==> s'.pc[i] == s''.pc[i];
    assert s'.pc == s''.pc && s'.watch == s''.watch && s'.done == s''.done;
  }

  /** A run of n threads in which only the first two do anything. */
  ghost predicate PairRun(n: nat, b: Behaviour, closing: bool, w: Two) {
    Behaves(n, b) && FailsOnly(b, closing) && b.states[|b.moves|] == Pair(n, w.p0, w.p1, w.sh)
  }

  lemma PairStart(n: nat, closing: bool) returns (b: Behaviour)
    ensures PairRun(n, b, closing, Two(Idle, Idle, Shared(None, 0, false, 0, 0, None)))
  {
    b := Behaviour([Init(n)], []);
    var s := Pair(n, Idle, Idle, Shared(None, 0, false, 0, 0, None));
    assert Init(n).pc == s.pc && Init(n).watch == s.watch && Init(n).done == s.done;
  }

  /** One more step of such a run. */
  lemma PairStep(n: nat, b: Behaviour, closing: bool, w: Two, t: nat, a: Action, w': Two) returns (c: Behaviour)
    requires n >= 2 && t < 2 && PairRun(n, b, closing, w) && TwoNext(w, t, a) == Some(w')
    requires a.WriteFails? ==> (if t == 0 then w.p0 else w.p1) == ModifyWrite(closing)
    ensures PairRun(n, c, closing, w')
  {
    hide Local;
    var s, s' := Pair(n, w.p0, w.p1, w.sh), Pair(n, w'.p0, w'.p1, w'.sh);
    PairApply(n, w, t, Local(t, if t == 0 then w.p0 else w.p1, false, w.sh, a).value);
    assert Next(s, t, a) == Some(s');
    c := Behaviour(b.states + [s'], b.moves + [Move(t, a)]);
    PairExtended(n, b, closing, Move(t, a), s');
  }

  lemma PairExtended(n: nat, b: Behaviour, closing: bool, m: Move, s: State)
    requires Behaves(n, b) && FailsOnly(b, closing) && Moves(b.states[|b.moves|], m, s)
    requires m.a.WriteFails? ==> b.states[|b.moves|].pc[m.t] == ModifyWrite(closing)
    ensures var c := Behaviour(b.states + [s], b.moves + [m]);
      Behaves(n, c) && FailsOnly(c, closing)
  {
    hide Moves;
    var c := Behaviour(b.states + [s], b.moves + [m]);
    MovesShape(b.states[|b.moves|], m, s);
    forall i | 0 <= i < |c.moves|
      ensures Moves(c.states[i], c.moves[i], c.states[i + 1])
      ensures c.moves[i].a.WriteFails? ==>
                c.moves[i].t < |c.states[i].pc| && c.states[i].pc[c.moves[i].t] == ModifyWrite(closing)
    {
      if i < |b.moves| { assert Moves(b.states[i], b.moves[i], b.states[i + 1]); }
    }
  }

  lemma MovesShape(s: State, m: Move, s': State)
    requires Moves(s, m, s')
    ensures m.t < |s.pc|
  {
  }

  const FREE := Shared(None, 0, false, 0, 0, None)
  const BUSY := Shared(None, 0, false, 1, 0, None)
  const HELD := Shared(None, 0, false, 1, 0, Some(0))

  /** A second thread finds pollfd_modify set twice ... */
  lemma FindsBusy(n: nat, b: Behaviour, closing: bool, p: PC) returns (c: Behaviour)
    requires n >= 2 && PairRun(n, b, closing, Two(Idle, p, BUSY))
    ensures PairRun(n, c, closing, Two(CheckModify, p, HELD))
  {
    hide PairRun;
    c := PairStep(n, b, closing, Two(Idle, p, BUSY), 0, StartHandle(false, false), Two(TryModify, p, BUSY));
    c := PairStep(n, c, closing, Two(TryModify, p, BUSY), 0, Internal, Two(LockWaiters, p, BUSY));
    c := PairStep(n, c, closing, Two(LockWaiters, p, BUSY), 0, Internal, Two(CheckDone, p, HELD));
    c := PairStep(n, c, closing, Two(CheckDone, p, HELD), 0, Internal, Two(CheckModify, p, HELD));
  }

  /** ... and goes to sleep. */
  lemma FallsAsleepBeside(n: nat, b: Behaviour, closing: bool, p: PC) returns (c: Behaviour)
    requires n >= 2 && PairRun(n, b, closing, Two(Idle, p, BUSY))
    ensures PairRun(n, c, closing, Two(Asleep, p, BUSY))
  {
    hide PairRun;
    c := FindsBusy(n, b, closing, p);
    c := PairStep(n, c, closing, Two(CheckModify, p, HELD), 0, Internal, Two(PC.Sleep, p, HELD));
    c := PairStep(n, c, closing, Two(PC.Sleep, p, HELD), 0, Internal, Two(Asleep, p, BUSY));
  }

  lemma Announces(n: nat, closing: bool) returns (b: Behaviour)
    requires n >= 2
    ensures PairRun(n, b, closing, Two(Idle, ModifyWrite(closing), BUSY))
  {
    hide PairRun;
    b := PairStart(n, closing);
    b := PairStep(n, b, closing, Two(Idle, Idle, FREE), 1, if closing then StartClose else StartOpen,
                  Two(Idle, ModifyInc(closing), FREE));
    b := PairStep(n, b, closing, Two(Idle, ModifyInc(closing), FREE), 1, Internal,
                  Two(Idle, ModifyWrite(closing), BUSY));
  }

  /** The last step of both kinds of failure. */
  lemma LetsGo(n: nat, b: Behaviour, closing: bool) returns (c: Behaviour)
    requires n >= 2 && PairRun(n, b, closing, Two(Asleep, FailedDec, BUSY))
    ensures PairRun(n, c, closing, Two(Asleep, Idle, FREE))
  {
    hide PairRun;
    c := PairStep(n, b, closing, Two(Asleep, FailedDec, BUSY), 1, Internal, Two(Asleep, Idle, FREE));
  }

  /** An opener announces itself, a thread goes to sleep on that, the write fails and
      the opener goes its way. */
  lemma FailedOpen(n: nat) returns (b: Behaviour)
    requires n >= 2
    ensures PairRun(n, b, false, Two(Asleep, Idle, FREE))
  {
    hide PairRun;
    b := Announces(n, false);
    b := FallsAsleepBeside(n, b, false, ModifyWrite(false));
    b := PairStep(n, b, false, Two(Asleep, ModifyWrite(false), BUSY), 1, WriteFails, Two(Asleep, FailedDec, BUSY));
    b := LetsGo(n, b, false);
  }

  /** The write fails first, and a thread that has not looked at pollfd_modify under
      event_waiters_lock yet goes to sleep afterwards. */
  lemma FailedOpenBefore(n: nat) returns (b: Behaviour)
    requires n >= 2
    ensures PairRun(n, b, false, Two(Asleep, Idle, FREE))
  {
    hide PairRun;
    b := Announces(n, false);
    b := PairStep(n, b, false, Two(Idle, ModifyWrite(false), BUSY), 1, WriteFails, Two(Idle, FailedDec, BUSY));
    b := FallsAsleepBeside(n, b, false, FailedDec);
    b := LetsGo(n, b, false);
  }

  /** A closer whose write failed takes the events lock ... */
  lemma FailedCloseLocks(n: nat) returns (b: Behaviour)
    requires n >= 2
    ensures PairRun(n, b, true, Two(Idle, CloseRemove(true), Shared(Some(1), 1, true, 1, 0, None)))
  {
    hide PairRun;
    var mine := Shared(Some(1), 1, false, 1, 0, None);
    b := Announces(n, true);
    b := PairStep(n, b, true, Two(Idle, ModifyWrite(true), BUSY), 1, WriteFails, Two(Idle, CloseLock(true), BUSY));
    b := PairStep(n, b, true, Two(Idle, CloseLock(true), BUSY), 1, Internal, Two(Idle, CloseActivate(true), mine));
    b := PairStep(n, b, true, Two(Idle, CloseActivate(true), mine), 1, Internal,
                  Two(Idle, CloseRemove(true), mine.(active := true)));
  }

  /** ... releases it ... */
  lemma FailedCloseReleases(n: nat) returns (b: Behaviour)
    requires n >= 2
    ensures PairRun(n, b, true, Two(Idle, BroadcastLock(ThenBackendClose(true)), BUSY))
  {
    hide PairRun;
    var mine := Shared(Some(1), 1, false, 1, 0, None);
    b := FailedCloseLocks(n);
    b := PairStep(n, b, true, Two(Idle, CloseRemove(true), mine.(active := true)), 1, Internal,
                  Two(Idle, CloseDeactivate(true), mine.(active := true)));
    b := PairStep(n, b, true, Two(Idle, CloseDeactivate(true), mine.(active := true)), 1, Internal,
                  Two(Idle, CloseRelease(true), mine));
    b := PairStep(n, b, true, Two(Idle, CloseRelease(true), mine), 1, Internal,
                  Two(Idle, BroadcastLock(ThenBackendClose(true)), BUSY));
  }

  /** ... makes its broadcast and closes the device. */
  lemma FailedCloseBroadcasts(n: nat) returns (b: Behaviour)
    requires n >= 2
    ensures PairRun(n, b, true, Two(Idle, BackendClose(true), BUSY))
  {
    hide PairRun;
    var k := ThenBackendClose(true);
    var hers := Shared(None, 0, false, 1, 0, Some(1));
    b := FailedCloseReleases(n);
    b := PairStep(n, b, true, Two(Idle, BroadcastLock(k), BUSY), 1, Internal, Two(Idle, BroadcastSend(k), hers));
    b := PairStep(n, b, true, Two(Idle, BroadcastSend(k), hers), 1, Internal, Two(Idle, BroadcastUnlock(k), hers));
    b := PairStep(n, b, true, Two(Idle, BroadcastUnlock(k), hers), 1, Internal, Two(Idle, BackendClose(true), BUSY));
  }

  /** A thread that looks at pollfd_modify after that broadcast goes to sleep, and the
      closer goes its way. */
  lemma FailedClose(n: nat) returns (b: Behaviour)
    requires n >= 2
    ensures PairRun(n, b, true, Two(Asleep, Idle, FREE))
  {
    hide PairRun;
    b := FailedCloseBroadcasts(n);
    b := FallsAsleepBeside(n, b, true, BackendClose(true));
    b := PairStep(n, b, true, Two(Asleep, BackendClose(true), BUSY), 1, Internal, Two(Asleep, FailedDec, BUSY));
    b := LetsGo(n, b, true);
  }

  lemma AbandonedPair(n: nat)
    requires n >= 2
    ensures Abandoned(Pair(n, Asleep, Idle, FREE)) && Stranded(Pair(n, Asleep, Idle, FREE))
  {
    var s := Pair(n, Asleep, Idle, FREE);
    assert s.pc[0].Asleep? && Sleeping(s.pc[0]);
  }

  /** With two threads or more there is a run, whose failed writes are all of openers, or
      all of closers, that leaves a thread asleep and all others idle. */
  lemma LostWakeupRun(n: nat, closing: bool) returns (b: Behaviour)
    requires n >= 2
    ensures Behaves(n, b) && FailsOnly(b, closing)
    ensures Abandoned(b.states[|b.moves|]) && Stranded(b.states[|b.moves|])
  {
    if closing { b := FailedClose(n); } else { b := FailedOpen(n); }
    AbandonedPair(n);
  }

  /** Failed writes of openers, and likewise those of closers, can strand a thread
      exactly when there are two threads; without failed writes none is stranded. */
  lemma LostWakeupExactly(n: nat, closing: bool)
    ensures (exists b :: Behaves(n, b) && FailsOnly(b, closing) && Stranded(b.states[|b.moves|])) <==> n >= 2
  {
    if n >= 2 {
      var b := LostWakeupRun(n, closing);
    } else {
      forall b | Behaves(n, b)
        ensures !Stranded(b.states[|b.moves|])
      {
        AtMostOne(n, b);
      }
    }
  }

  lemma AtMostOne(n: nat, b: Behaviour)
    requires n <= 1 && Behaves(n, b)
    ensures !Stranded(b.states[|b.moves|])
  {
    BehaviourInv(n, b, |b.moves|);
    if n == 1 { AloneNeverWaits(b, |b.moves|); }
  }

  lemma NoFailureNobodyStranded(n: nat, b: Behaviour, k: nat)
    requires Behaves(n, b) && NoWriteFails(b) && k < |b.states|
    ensures !Stranded(b.states[k])
  {
    BehaviourInv(n, b, k);
  }
}
