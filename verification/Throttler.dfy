/** The thread that throttles processes (task-linux.cpp): a table of percentages, two
    queues of requests that other threads fill under a lock, and rounds in which each
    throttled process runs for its share of the interval. */
module Throttler {
  /** A process handler; its address in the source. */
  type Process = nat

  datatype Request = Request(process: Process, percentage: real)

  /** _throttlingValues and _sumPercentages. */
  datatype Table = Table(values: map<Process, real>, total: real)

  const LIMIT := 100.0

  // ---------------------------------------------------------------------
  // The sum of a table

  ghost function Sum(m: map<Process, real>): real
    decreases m.Keys
  {
    if m.Keys == {} then 0.0 else var k :| k in m.Keys; m[k] + Sum(m - {k})
  }

  lemma SumAny(m: map<Process, real>) returns (k: Process)
    requires m.Keys != {}
    ensures k in m && Sum(m) == m[k] + Sum(m - {k})
  {
    k :| k in m.Keys && Sum(m) == m[k] + Sum(m - {k});
  }

  lemma {:induction false} SumMinus(m: map<Process, real>, k: Process)
    requires k in m
    ensures Sum(m) == m[k] + Sum(m - {k})
    decreases m.Keys
  {
    hide Sum;
    var j := SumAny(m);
    if j != k {
      assert j in m.Keys && k in m.Keys;
      SumMinus(m - {j}, k);
      SumMinus(m - {k}, j);
      assert m - {j} - {k} == m - {k} - {j};
    }
  }

  lemma SumUpdate(m: map<Process, real>, k: Process, v: real)
    ensures Sum(m[k := v]) == v + (if k in m then Sum(m) - m[k] else Sum(m))
  {
    hide Sum;
    SumMinus(m[k := v], k);
    if k in m {
      SumMinus(m, k);
      assert m[k := v] - {k} == m - {k};
    } else {
      assert m[k := v] - {k} == m;
    }
  }

  /** The part of an interval that a percentage stands for. */
  function Slice(percentage: real, interval: nat): real {
    percentage / 100.0 * interval as real
  }

  lemma SumNothing(interval: nat)
    ensures Sum(map[]) == 0.0 && Slice(0.0, interval) == 0.0
  {
  }

  ghost predicate Positive(m: map<Process, real>) {
    forall k :: k in m ==> m[k] > 0.0
  }

  lemma {:induction false} SumMinusAll(m: map<Process, real>, dead: set<Process>)
    requires Positive(m)
    ensures Sum(m - dead) <= Sum(m)
    decreases dead
  {
    hide Sum;
    if dead == {} {
      assert m - dead == m;
    } else {
      var k :| k in dead;
      SumMinusAll(m, dead - {k});
      var rest := m - (dead - {k});
      if k in m {
        SumMinus(rest, k);
        assert rest - {k} == m - dead;
      } else {
        assert rest == m - dead;
      }
    }
  }

  lemma {:induction false} SumNotNegative(m: map<Process, real>)
    requires Positive(m)
    ensures Sum(m) >= 0.0
    decreases m.Keys
  {
    if m.Keys != {} {
      var k := SumAny(m);
      SumNotNegative(m - {k});
    }
  }

  // ---------------------------------------------------------------------
  // What the operations do

  function Add(t: Table, r: Request): Table {
    if r.process in t.values then t.(values := t.values[r.process := r.percentage])
    else if t.total + r.percentage <= LIMIT then
      Table(t.values[r.process := r.percentage], t.total + r.percentage)
    else t
  }

  function Remove(t: Table, p: Process): Table {
    if p in t.values then Table(t.values - {p}, t.total - t.values[p]) else t
  }

  function AddAll(t: Table, rs: seq<Request>): Table
    decreases |rs|
  {
    if rs == [] then t else AddAll(Add(t, rs[0]), rs[1..])
  }

  function RemoveAll(t: Table, ps: seq<Process>): Table
    decreases |ps|
  {
    if ps == [] then t else RemoveAll(Remove(t, ps[0]), ps[1..])
  }

  lemma {:induction false} AddAllSnoc(t: Table, rs: seq<Request>, r: Request)
    ensures AddAll(t, rs + [r]) == Add(AddAll(t, rs), r)
    decreases |rs|
  {
    if rs == [] {
      assert AddAll(Add(t, r), []) == Add(t, r);
    } else {
      assert (rs + [r])[1..] == rs[1..] + [r];
      AddAllSnoc(Add(t, rs[0]), rs[1..], r);
    }
  }

  lemma {:induction false} RemoveAllSnoc(t: Table, ps: seq<Process>, p: Process)
    ensures RemoveAll(t, ps + [p]) == Remove(RemoveAll(t, ps), p)
    decreases |ps|
  {
    if ps == [] {
      assert RemoveAll(Remove(t, p), []) == Remove(t, p);
    } else {
      assert (ps + [p])[1..] == ps[1..] + [p];
      RemoveAllSnoc(Remove(t, ps[0]), ps[1..], p);
    }
  }

  /** The state that the lock guards. */
  datatype State = State(table: Table, toAdd: seq<Request>, toRemove: seq<Process>)

  /** ThrottlerThread::throttle. */
  predicate Admits(t: Table, r: Request) {
    r.process in t.values || t.total + r.percentage <= LIMIT
  }

  /** The first locked section of a round. */
  function Drained(s: State): State {
    State(RemoveAll(AddAll(s.table, s.toAdd), s.toRemove), [], [])
  }

  /** The second locked section of a round. */
  function Reaped(t: Table, dead: set<Process>): Table {
    t.(values := t.values - dead)
  }

  /** What happens to the state, at any time and in any order: requests of other
      threads, and the two locked sections of the rounds. */
  datatype Action = Throttle(r: Request) | Unthrottle(p: Process) | Drain | Reap(dead: set<Process>)

  function Next(s: State, a: Action): State {
    match a
    case Throttle(r) =>
      if 0.0 < r.percentage <= LIMIT && Admits(s.table, r) then s.(toAdd := s.toAdd + [r]) else s
    case Unthrottle(p) => s.(toRemove := s.toRemove + [p])
    case Drain => Drained(s)
    case Reap(dead) => s.(table := Reaped(s.table, dead))
  }

  const INITIAL := State(Table(map[], 0.0), [], [])

  function Run(s: State, actions: seq<Action>): State
    decreases |actions|
  {
    if actions == [] then s else Run(Next(s, actions[0]), actions[1..])
  }

  lemma {:induction false} RunSnoc(s: State, actions: seq<Action>, a: Action)
    ensures Run(s, actions + [a]) == Next(Run(s, actions), a)
    decreases |actions|
  {
    hide Next;
    if actions == [] {
      assert Run(Next(s, a), []) == Next(s, a);
    } else {
      assert (actions + [a])[1..] == actions[1..] + [a];
      RunSnoc(Next(s, actions[0]), actions[1..], a);
    }
  }

  /** Only requests, which other threads make at any time. */
  predicate Requested(actions: seq<Action>) {
    forall i :: 0 <= i < |actions| ==> actions[i].Throttle? || actions[i].Unthrottle?
  }

  lemma {:induction false} RequestsKeepTable(s: State, actions: seq<Action>)
    requires Requested(actions)
    ensures Run(s, actions).table == s.table
    decreases |actions|
  {
    if actions != [] {
      assert Requested(actions[1..]);
      RequestsKeepTable(Next(s, actions[0]), actions[1..]);
    }
  }

  // ---------------------------------------------------------------------
  // The thread

  datatype Answer = Accepted | OutOfRange | OverBudget

  class ThrottlerThread {
    var throttlingValues: map<Process, real>
    var sumPercentages: real
    var processesToAdd: seq<Request>
    var processesToRemove: seq<Process>
    var throttlingInterval: nat

    function TableOf(): Table
      reads this
    {
      Table(throttlingValues, sumPercentages)
    }

    function StateOf(): State
      reads this
    {
      State(TableOf(), processesToAdd, processesToRemove)
    }

    constructor (interval: nat)
      ensures StateOf() == State(Table(map[], 0.0), [], []) && throttlingInterval == interval
    {
      throttlingValues, sumPercentages := map[], 0.0;
      processesToAdd, processesToRemove := [], [];
      throttlingInterval := interval;
    }

    method AddProcess(process: Request)
      modifies this`throttlingValues, this`sumPercentages
      ensures TableOf() == Add(old(TableOf()), process)
    {
      var percentage := process.percentage;
      if process.process in throttlingValues {
        throttlingValues := throttlingValues[process.process := percentage];
      } else if sumPercentages + percentage <= 100.0 {
        throttlingValues := throttlingValues[process.process := percentage];
        sumPercentages := sumPercentages + percentage;
      }
    }

    method RemoveProcess(process: Process)
      modifies this`throttlingValues, this`sumPercentages
      ensures TableOf() == Remove(old(TableOf()), process)
    {
      if process in throttlingValues {
        sumPercentages := sumPercentages - throttlingValues[process];
        throttlingValues := throttlingValues - {process};
      }
    }

    /** ThrottlerThread::throttle and the range check of ProcessHandlerLinux::throttle. */
    method Throttle(process: Process, percentage: real) returns (answer: Answer)
      modifies this`processesToAdd
      ensures answer.OutOfRange? <==> !(0.0 < percentage <= 100.0)
      ensures answer.Accepted? ==> Admits(TableOf(), Request(process, percentage))
      ensures answer.OverBudget? ==> !Admits(TableOf(), Request(process, percentage))
      ensures processesToAdd
           == old(processesToAdd) + if answer.Accepted? then [Request(process, percentage)] else []
      ensures StateOf() == Next(old(StateOf()), Action.Throttle(Request(process, percentage)))
    {
      if percentage <= 0.0 || percentage > 100.0 {
        return OutOfRange;
      }
      if process !in throttlingValues && sumPercentages + percentage > 100.0 {
        return OverBudget;
      }
      processesToAdd := processesToAdd + [Request(process, percentage)];
      answer := Accepted;
    }

    method RemoveThrottling(process: Process)
      modifies this`processesToRemove
      ensures processesToRemove == old(processesToRemove) + [process]
      ensures StateOf() == Next(old(StateOf()), Unthrottle(process))
    {
      processesToRemove := processesToRemove + [process];
    }

    method Drain()
      modifies this`throttlingValues, this`sumPercentages, this`processesToAdd, this`processesToRemove
      ensures StateOf() == Drained(old(StateOf()))
    {
      var rs, ps := processesToAdd, processesToRemove;
      ghost var t := TableOf();
      var i := 0;
      while i < |rs|
        invariant 0 <= i <= |rs| && TableOf() == AddAll(t, rs[..i])
      {
        AddProcess(rs[i]);
        AddAllSnoc(t, rs[..i], rs[i]);
        i := i + 1;
        assert rs[..i] == rs[..i - 1] + [rs[i - 1]];
      }
      assert rs[..i] == rs;
      processesToAdd := [];
      ghost var u := TableOf();
      i := 0;
      while i < |ps|
        invariant 0 <= i <= |ps| && TableOf() == RemoveAll(u, ps[..i]) && processesToAdd == []
      {
        RemoveProcess(ps[i]);
        RemoveAllSnoc(u, ps[..i], ps[i]);
        i := i + 1;
        assert ps[..i] == ps[..i - 1] + [ps[i - 1]];
      }
      assert ps[..i] == ps;
      processesToRemove := [];
    }

    /** One pass over the table: resume, sleep for the share, stop.  `resumed` and
        `stopped` say which processes were there to receive the signals.  The map is
        walked in some order. */
    method Slices(interval: nat, resumed: set<Process>, stopped: set<Process>)
        returns (slept: real, terminated: seq<Process>)
      ensures slept == Slice(Sum(Only(throttlingValues, resumed)), interval)
      ensures forall p :: p in terminated <==> p in throttlingValues && !(p in resumed && p in stopped)
      ensures forall i, j :: 0 <= i < j < |terminated| ==> terminated[i] != terminated[j]
    {
      hide Sum, Slice, Only;
      slept, terminated := 0.0, [];
      var todo := throttlingValues.Keys;
      ghost var done: map<Process, real> := map[];
      ShareNothing(interval, resumed);
      while todo != {}
        invariant todo <= throttlingValues.Keys && done == throttlingValues - todo
        invariant slept == Slice(Sum(Only(done, resumed)), interval)
        invariant forall p :: p in terminated <==> p in done && !(p in resumed && p in stopped)
        invariant forall i, j :: 0 <= i < j < |terminated| ==> terminated[i] != terminated[j]
        decreases |todo|
      {
        var p :| p in todo;
        var value := throttlingValues[p];
        Share(done, p, value, interval, resumed);
        if p in resumed {
          var active := Slice(value, interval);
          slept := slept + active;
          if p !in stopped {
            terminated := terminated + [p];
          }
        } else {
          terminated := terminated + [p];
        }
        todo := todo - {p};
        done := done[p := value];
      }
      assert done == throttlingValues;
    }

    /** erase(find(process)), which needs the handler to be present. */
    method Erase(process: Process)
      requires process in throttlingValues
      modifies this`throttlingValues
      ensures throttlingValues == old(throttlingValues) - {process}
    {
      throttlingValues := throttlingValues - {process};
    }

    method Reap(terminated: seq<Process>)
      requires forall p :: p in terminated ==> p in throttlingValues
      requires forall i, j :: 0 <= i < j < |terminated| ==> terminated[i] != terminated[j]
      modifies this`throttlingValues
      ensures TableOf() == Reaped(old(TableOf()), set p | p in terminated)
    {
      var i := 0;
      ghost var before := throttlingValues;
      while i < |terminated|
        invariant 0 <= i <= |terminated|
        invariant throttlingValues == before - set p | p in terminated[..i]
      {
        assert terminated[i] in terminated;
        assert terminated[i] !in terminated[..i];
        Erase(terminated[i]);
        i := i + 1;
        assert terminated[..i] == terminated[..i - 1] + [terminated[i - 1]];
      }
      assert terminated[..i] == terminated;
    }

    /** What other threads ask for while the lock is free. */
    method Requests(actions: seq<Action>)
      requires Requested(actions)
      modifies this`processesToAdd, this`processesToRemove
      ensures StateOf() == Run(old(StateOf()), actions)
    {
      hide Next;
      var i := 0;
      ghost var s := StateOf();
      assert actions[..0] == [];
      while i < |actions|
        invariant 0 <= i <= |actions| && StateOf() == Run(s, actions[..i])
      {
        RunSnoc(s, actions[..i], actions[i]);
        match actions[i] {
          case Throttle(r) => var _ := Throttle(r.process, r.percentage);
          case Unthrottle(p) => RemoveThrottling(p);
        }
        i := i + 1;
        assert actions[..i] == actions[..i - 1] + [actions[i - 1]];
      }
      assert actions[..i] == actions;
    }

    /** One round of the loop of run: two locked sections, between which the processes
        run for their slices and other threads make any requests.  The interval is read
        once, and whatever dies on the way is in the table when it is erased.  From a
        safe table the sleep at the end is not negative. */
    method Round(resumed: set<Process>, stopped: set<Process>, requests: seq<Action>)
        returns (slept: real, rest: real)
      requires Requested(requests)
      modifies this
      ensures var t := old(Drained(StateOf())).table;
        var dead := set p | p in t.values && !(p in resumed && p in stopped);
        && StateOf() == Next(Run(Next(old(StateOf()), Action.Drain), requests), Action.Reap(dead))
        && TableOf() == Reaped(t, dead)
      ensures throttlingInterval == old(throttlingInterval) && slept + rest == throttlingInterval as real
      ensures slept == Slice(Sum(Only(old(Drained(StateOf())).table.values, resumed)), throttlingInterval)
      ensures Safe(old(Drained(StateOf())).table) ==> Safe(TableOf()) && slept >= 0.0 && rest >= 0.0
    {
      hide Slice, Sum, Run;
      var interval := throttlingInterval;
      Drain();
      ghost var t := TableOf();
      RequestsKeepTable(StateOf(), requests);
      Requests(requests);
      var terminated;
      slept, terminated := Slices(interval, resumed, stopped);
      Reap(terminated);
      if Safe(t) {
        SlicesFit(t, interval, resumed);
        ReapKeepsSafe(t, set p | p in terminated);
      }
      assert (set p | p in terminated) == set p | p in t.values && !(p in resumed && p in stopped);
      rest := interval as real - slept;
    }
  }

  /** A slice is the percentage of the interval. */
  lemma SliceExactly(percentage: real, interval: nat)
    ensures Slice(percentage, interval) * 100.0 == percentage * interval as real
  {
    var x, n := percentage / 100.0, interval as real;
    assert percentage == x * 100.0;
    assert x * n * 100.0 == x * 100.0 * n;
  }

  lemma SliceAdds(a: real, b: real, interval: nat)
    ensures Slice(a + b, interval) == Slice(a, interval) + Slice(b, interval)
  {
    var x, y, n := a / 100.0, b / 100.0, interval as real;
    assert (a + b) / 100.0 == x + y;
    assert (x + y) * n == x * n + y * n;
  }

  lemma SliceMonotone(a: real, b: real, interval: nat)
    requires 0.0 <= a <= b
    ensures 0.0 <= Slice(a, interval) <= Slice(b, interval)
  {
    var x, y, n := a / 100.0, b / 100.0, interval as real;
    assert 0.0 <= x <= y && n >= 0.0;
    assert x * n >= 0.0 && (y - x) * n >= 0.0;
  }

  /** The entries of some processes. */
  ghost function Only(m: map<Process, real>, ps: set<Process>): map<Process, real> {
    m - (m.Keys - ps)
  }

  lemma ShareNothing(interval: nat, resumed: set<Process>)
    ensures Slice(Sum(Only(map[], resumed)), interval) == 0.0
  {
    SumNothing(interval);
    assert Only(map[], resumed) == map[];
  }

  lemma Share(done: map<Process, real>, p: Process, v: real, interval: nat, resumed: set<Process>)
    requires p !in done
    ensures Slice(Sum(Only(done[p := v], resumed)), interval)
         == Slice(Sum(Only(done, resumed)), interval) + if p in resumed then Slice(v, interval) else 0.0
  {
    hide Sum, Slice;
    if p in resumed {
      assert Only(done[p := v], resumed) == Only(done, resumed)[p := v];
      SumUpdate(Only(done, resumed), p, v);
      SliceAdds(Sum(Only(done, resumed)), v, interval);
    } else {
      assert Only(done[p := v], resumed) == Only(done, resumed);
    }
  }

  /** The slices of a safe table fit into the interval. */
  lemma SlicesFit(t: Table, interval: nat, resumed: set<Process>)
    requires Safe(t)
    ensures 0.0 <= Slice(Sum(Only(t.values, resumed)), interval) <= interval as real
  {
    hide Sum;
    SumMinusAll(t.values, t.values.Keys - resumed);
    SumNotNegative(Only(t.values, resumed));
    SliceMonotone(Sum(Only(t.values, resumed)), LIMIT, interval);
  }

  // ---------------------------------------------------------------------
  // Safety

  /** The percentages add up to no more than the budget counter, which stays within
      100. */
  ghost predicate Safe(t: Table) {
    Positive(t.values) && Sum(t.values) <= t.total <= LIMIT
  }

  /** A request that lands keeps the table safe exactly when it does not raise a
      process above its old share plus what the counter has in excess of the sum. */
  lemma AddSafeExactly(t: Table, r: Request)
    requires Safe(t) && r.percentage > 0.0
    ensures Safe(Add(t, r)) <==>
              (r.process in t.values ==> r.percentage <= t.values[r.process] + (t.total - Sum(t.values)))
  {
    SumUpdate(t.values, r.process, r.percentage);
  }

  lemma RemoveKeepsSafe(t: Table, p: Process)
    requires Safe(t)
    ensures Safe(Remove(t, p))
  {
    if p in t.values { SumMinus(t.values, p); }
  }

  lemma ReapKeepsSafe(t: Table, dead: set<Process>)
    requires Safe(t)
    ensures Safe(Reaped(t, dead))
  {
    SumMinusAll(t.values, dead);
  }

  /** No request raises a process that is throttled when it lands. */
  ghost predicate NeverUp(t: Table, rs: seq<Request>)
    decreases |rs|
  {
    rs == [] ||
    ((rs[0].process in t.values ==> rs[0].percentage <= t.values[rs[0].process]) && NeverUp(Add(t, rs[0]), rs[1..]))
  }

  ghost predicate InRange(rs: seq<Request>) {
    forall i :: 0 <= i < |rs| ==> 0.0 < rs[i].percentage <= LIMIT
  }

  /** Budget that no process uses: the excess of the counter over the sum. */
  ghost function Lost(t: Table): real {
    t.total - Sum(t.values)
  }

  lemma {:induction false} AddAllKeepsSafe(t: Table, rs: seq<Request>)
    requires Safe(t) && InRange(rs) && NeverUp(t, rs)
    ensures Safe(AddAll(t, rs)) && Lost(AddAll(t, rs)) >= Lost(t)
    decreases |rs|
  {
    if rs != [] {
      AddSafeExactly(t, rs[0]);
      SumUpdate(t.values, rs[0].process, rs[0].percentage);
      AddAllKeepsSafe(Add(t, rs[0]), rs[1..]);
    }
  }

  lemma {:induction false} RemoveAllKeepsSafe(t: Table, ps: seq<Process>)
    requires Safe(t)
    ensures Safe(RemoveAll(t, ps)) && Lost(RemoveAll(t, ps)) == Lost(t)
    decreases |ps|
  {
    if ps != [] {
      RemoveKeepsSafe(t, ps[0]);
      if ps[0] in t.values { SumMinus(t.values, ps[0]); }
      RemoveAllKeepsSafe(Remove(t, ps[0]), ps[1..]);
    }
  }

  // ---------------------------------------------------------------------
  // Runs

  /** Along the run no request that lands raises a process. */
  ghost predicate Modest(s: State, actions: seq<Action>)
    decreases |actions|
  {
    actions == [] ||
    ((actions[0].Drain? ==> NeverUp(s.table, s.toAdd)) && Modest(Next(s, actions[0]), actions[1..]))
  }

  lemma NextKeepsSafe(s: State, a: Action)
    requires Safe(s.table) && InRange(s.toAdd) && (a.Drain? ==> NeverUp(s.table, s.toAdd))
    ensures Safe(Next(s, a).table) && InRange(Next(s, a).toAdd)
    ensures Lost(Next(s, a).table) >= Lost(s.table)
  {
    match a
    case Throttle(r) =>
    case Unthrottle(p) =>
    case Drain =>
      AddAllKeepsSafe(s.table, s.toAdd);
      RemoveAllKeepsSafe(AddAll(s.table, s.toAdd), s.toRemove);
    case Reap(dead) =>
      ReapKeepsSafe(s.table, dead);
      SumMinusAll(s.table.values, dead);
  }

  lemma {:induction false} RunKeepsSafe(s: State, actions: seq<Action>)
    requires Safe(s.table) && InRange(s.toAdd) && Modest(s, actions)
    ensures Safe(Run(s, actions).table) && InRange(Run(s, actions).toAdd)
    ensures Lost(Run(s, actions).table) >= Lost(s.table)
    decreases |actions|
  {
    if actions != [] {
      NextKeepsSafe(s, actions[0]);
      RunKeepsSafe(Next(s, actions[0]), actions[1..]);
    }
  }

  /** Over every run in which no throttled process is raised, whatever was queued when
      and whatever died: the percentages in force never add up to more than the
      counter, nor the counter to more than 100. */
  lemma SafeAlways(actions: seq<Action>)
    requires Modest(INITIAL, actions)
    ensures Safe(Run(INITIAL, actions).table)
  {
    RunKeepsSafe(INITIAL, actions);
  }

  // ---------------------------------------------------------------------
  // Lost budget

  /** What the updates among landing requests take off the shares of their processes;
      negative for what they add. */
  ghost function Lowered(t: Table, rs: seq<Request>): real
    decreases |rs|
  {
    if rs == [] then 0.0
    else
      (if rs[0].process in t.values then t.values[rs[0].process] - rs[0].percentage else 0.0)
      + Lowered(Add(t, rs[0]), rs[1..])
  }

  /** The budget that an action loses: the shares of the processes it reaps, and what
      updates take off. */
  ghost function Leak(s: State, a: Action): real {
    match a
    case Drain => Lowered(s.table, s.toAdd)
    case Reap(dead) => Sum(Only(s.table.values, dead))
    case _ => 0.0
  }

  ghost function Leaked(s: State, actions: seq<Action>): real
    decreases |actions|
  {
    if actions == [] then 0.0 else Leak(s, actions[0]) + Leaked(Next(s, actions[0]), actions[1..])
  }

  lemma {:induction false} LostAddAll(t: Table, rs: seq<Request>)
    ensures Lost(AddAll(t, rs)) == Lost(t) + Lowered(t, rs)
    decreases |rs|
  {
    hide Sum;
    if rs != [] {
      SumUpdate(t.values, rs[0].process, rs[0].percentage);
      LostAddAll(Add(t, rs[0]), rs[1..]);
    }
  }

  lemma {:induction false} LostRemoveAll(t: Table, ps: seq<Process>)
    ensures Lost(RemoveAll(t, ps)) == Lost(t)
    decreases |ps|
  {
    hide Sum;
    if ps != [] {
      if ps[0] in t.values { SumMinus(t.values, ps[0]); }
      LostRemoveAll(Remove(t, ps[0]), ps[1..]);
    }
  }

  lemma {:induction false} SumSplit(m: map<Process, real>, ps: set<Process>)
    ensures Sum(m) == Sum(m - ps) + Sum(Only(m, ps))
    decreases ps
  {
    hide Sum;
    if ps == {} {
      SumNothing(0);
      assert m - ps == m && Only(m, ps) == map[];
    } else {
      var k :| k in ps;
      var less := ps - {k};
      SumSplit(m, less);
      if k in m {
        SumMinus(m - less, k);
        SumMinus(Only(m, ps), k);
        assert m - less - {k} == m - ps && Only(m, ps) - {k} == Only(m, less);
      } else {
        assert m - less == m - ps && Only(m, ps) == Only(m, less);
      }
    }
  }

  lemma NextLost(s: State, a: Action)
    ensures Lost(Next(s, a).table) == Lost(s.table) + Leak(s, a)
  {
    hide Sum, Only;
    match a
    case Throttle(_) =>
    case Unthrottle(_) =>
    case Drain =>
      LostAddAll(s.table, s.toAdd);
      LostRemoveAll(AddAll(s.table, s.toAdd), s.toRemove);
    case Reap(dead) =>
      SumSplit(s.table.values, dead);
  }

  /** The account of lost budget, over any run at all: it grows by the shares of the
      processes that are reaped while throttled and by what updates take off, shrinks by
      what updates add, and nothing else changes it. */
  lemma {:induction false} LostAccount(s: State, actions: seq<Action>)
    ensures Lost(Run(s, actions).table) == Lost(s.table) + Leaked(s, actions)
    decreases |actions|
  {
    hide Lost, Next, Leak;
    if actions != [] {
      NextLost(s, actions[0]);
      LostAccount(Next(s, actions[0]), actions[1..]);
    }
  }

  /** A landing request changes it exactly by changing a share. */
  lemma LandingLosesExactly(t: Table, r: Request)
    ensures Lost(Add(t, r)) != Lost(t) <==> r.process in t.values && t.values[r.process] != r.percentage
  {
    hide Sum;
    SumUpdate(t.values, r.process, r.percentage);
  }

  lemma OnlyPositive(m: map<Process, real>, ps: set<Process>)
    requires Positive(m)
    ensures Sum(Only(m, ps)) >= 0.0
    ensures Sum(Only(m, ps)) == 0.0 <==> m.Keys !! ps
  {
    hide Sum;
    SumNotNegative(Only(m, ps));
    SumNothing(0);
    if k :| k in m && k in ps {
      SumMinus(Only(m, ps), k);
      SumNotNegative(Only(m, ps) - {k});
    } else {
      assert Only(m, ps) == map[];
    }
  }

  /** A reaping loses budget exactly if it takes a throttled process. */
  lemma ReapingLosesExactly(t: Table, dead: set<Process>)
    requires Positive(t.values)
    ensures Lost(Reaped(t, dead)) >= Lost(t)
    ensures Lost(Reaped(t, dead)) != Lost(t) <==> exists p :: p in dead && p in t.values
  {
    hide Sum, Only;
    SumSplit(t.values, dead);
    OnlyPositive(t.values, dead);
  }

  /** No landing update changes a share. */
  ghost predicate SharesStay(t: Table, rs: seq<Request>)
    decreases |rs|
  {
    rs == [] ||
    ((rs[0].process in t.values ==> rs[0].percentage == t.values[rs[0].process]) && SharesStay(Add(t, rs[0]), rs[1..]))
  }

  lemma {:induction false} LoweredExactly(t: Table, rs: seq<Request>)
    requires NeverUp(t, rs)
    ensures Lowered(t, rs) >= 0.0 && (Lowered(t, rs) == 0.0 <==> SharesStay(t, rs))
    decreases |rs|
  {
    if rs != [] {
      LoweredExactly(Add(t, rs[0]), rs[1..]);
    }
  }

  /** Along the run no throttled process is reaped and no landing update changes a
      share. */
  ghost predicate Steady(s: State, actions: seq<Action>)
    decreases |actions|
  {
    actions == [] ||
    (&& (actions[0].Drain? ==> SharesStay(s.table, s.toAdd))
     && (actions[0].Reap? ==> forall p :: p in actions[0].dead ==> p !in s.table.values)
     && Steady(Next(s, actions[0]), actions[1..]))
  }

  /** In a run that raises nobody lost budget never comes back, and it stays the same
      exactly if no throttled process dies and no landing update changes a share. */
  lemma {:induction false} LostExactly(s: State, actions: seq<Action>)
    requires Safe(s.table) && InRange(s.toAdd) && Modest(s, actions)
    ensures Lost(Run(s, actions).table) >= Lost(s.table)
    ensures Lost(Run(s, actions).table) == Lost(s.table) <==> Steady(s, actions)
    decreases |actions|
  {
    hide Lost, Sum, Next, Only, SharesStay, NeverUp;
    if actions != [] {
      var a := actions[0];
      NextLost(s, a);
      NextKeepsSafe(s, a);
      LostExactly(Next(s, a), actions[1..]);
      match a
      case Throttle(_) =>
      case Unthrottle(_) =>
      case Drain => LoweredExactly(s.table, s.toAdd);
      case Reap(dead) => OnlyPositive(s.table.values, dead);
    }
  }

  /** What lost budget costs: in a run that raises nobody the shares in force stay below
      what is left of the limit. */
  lemma LostForever(s: State, actions: seq<Action>)
    requires Safe(s.table) && InRange(s.toAdd) && Modest(s, actions)
    ensures Sum(Run(s, actions).table.values) <= LIMIT - Lost(s.table)
  {
    RunKeepsSafe(s, actions);
  }

  // ---------------------------------------------------------------------
  // Removal

  function Elements(ps: seq<Process>): set<Process> {
    set p | p in ps
  }

  lemma {:induction false} RemoveAllExactly(t: Table, ps: seq<Process>)
    ensures RemoveAll(t, ps).values == t.values - Elements(ps)
    ensures RemoveAll(t, ps).total == t.total - Sum(Only(t.values, Elements(ps)))
    decreases |ps|
  {
    hide Sum;
    if ps == [] {
      SumNothing(0);
      assert Elements(ps) == {} && t.values - {} == t.values && Only(t.values, {}) == map[];
    } else {
      var p, rest, u := ps[0], ps[1..], Remove(t, ps[0]);
      RemoveAllExactly(u, rest);
      assert Elements(ps) == {p} + Elements(rest);
      assert u.values == t.values - {p};
      assert t.values - {p} - Elements(rest) == t.values - Elements(ps);
      if p in t.values {
        SumMinus(Only(t.values, Elements(ps)), p);
        assert Only(t.values, Elements(ps)) - {p} == Only(u.values, Elements(rest));
      } else {
        assert Only(t.values, Elements(ps)) == Only(u.values, Elements(rest));
      }
    }
  }

  /** After a drain no process whose removal was asked for is in the table, not even one
      whose addition was queued too; every other has the value that the additions have left
      it with; and the counter has fallen by the values of those that were removed. */
  lemma DrainRemoves(s: State)
    ensures var added, t := AddAll(s.table, s.toAdd), Drained(s).table;
      && (forall i :: 0 <= i < |s.toRemove| ==> s.toRemove[i] !in t.values)
      && (forall p :: p !in s.toRemove ==> (p in t.values <==> p in added.values))
      && (forall p :: p in t.values ==> p in added.values && t.values[p] == added.values[p])
      && t.total == added.total - Sum(Only(added.values, Elements(s.toRemove)))
  {
    hide Sum, Only;
    RemoveAllExactly(AddAll(s.table, s.toAdd), s.toRemove);
  }

  /** Whatever the state: a process is out of the table after its removal has been asked
      for and a drain.  If no other removal is queued exactly its share is free again: a new
      request is admitted if and only if it fits into that. */
  lemma RemovalFrees(s: State, p: Process, r: Request)
    ensures p !in Next(Next(s, Unthrottle(p)), Drain).table.values
    ensures var added, t := AddAll(s.table, s.toAdd), Next(Next(s, Unthrottle(p)), Drain).table;
      s.toRemove == [] && r.process !in t.values ==>
        (Admits(t, r) <==> added.total - (if p in added.values then added.values[p] else 0.0) + r.percentage <= 100.0)
  {
    hide Sum, Only;
    var asked := Next(s, Unthrottle(p));
    DrainRemoves(asked);
    assert asked.toRemove[|s.toRemove|] == p;
    if s.toRemove == [] {
      var added := AddAll(s.table, s.toAdd);
      assert Elements(asked.toRemove) == {p};
      OnlyOne(added.values, p);
    }
  }

  lemma OnlyOne(m: map<Process, real>, p: Process)
    ensures Sum(Only(m, {p})) == if p in m then m[p] else 0.0
  {
    hide Sum;
    SumNothing(0);
    if p in m {
      assert Only(m, {p}) == map[p := m[p]];
      SumMinus(Only(m, {p}), p);
      assert Only(m, {p}) - {p} == map[];
    } else {
      assert Only(m, {p}) == map[];
    }
  }

  /** A run in which a request is refused, a process removed, and the same request then
      accepted and put into force. */
  lemma RefusedThenAccepted()
    ensures var a, b := Request(0, 60.0), Request(1, 60.0);
      var s := Run(INITIAL, [Throttle(a), Drain, Throttle(b)]);
      && s == State(Table(map[0 := 60.0], 60.0), [], [])
      && Run(s, [Unthrottle(0), Drain, Throttle(b)] + [Drain]) == State(Table(map[1 := 60.0], 60.0), [], [])
  {
    var a, b := Request(0, 60.0), Request(1, 60.0);
    var one, none, other := Table(map[0 := 60.0], 60.0), Table(map[], 0.0), Table(map[1 := 60.0], 60.0);
    var s1 := Next(INITIAL, Throttle(a));
    assert s1 == State(none, [a], []);
    AddOne(none, a);
    assert Next(s1, Drain) == State(one, [], []);
    assert Next(State(one, [], []), Throttle(b)) == State(one, [], []);
    RunThree(INITIAL, Throttle(a), Drain, Throttle(b), []);
    assert [Throttle(a), Drain, Throttle(b)] + [] == [Throttle(a), Drain, Throttle(b)];
    var s := State(one, [], []);
    var s2 := Next(s, Unthrottle(0));
    assert s2 == State(one, [], [0]);
    assert Remove(one, 0) == none;
    assert RemoveAll(one, [0]) == RemoveAll(none, [0][1..]) == none;
    assert Next(s2, Drain) == State(none, [], []);
    var s3 := Next(State(none, [], []), Throttle(b));
    assert s3 == State(none, [b], []);
    RunThree(s, Unthrottle(0), Drain, Throttle(b), [Drain]);
    AddOne(none, b);
    assert Next(s3, Drain) == State(other, [], []);
    assert [Action.Drain][1..] == [];
  }

  // ---------------------------------------------------------------------
  // What the code does not keep

  /** Without that restriction it fails: two processes at 50, the first then raised to
      100.  The slices add up to one and a half times the interval. */
  lemma UpwardBreaks()
    ensures var s := Run(INITIAL, [Throttle(Request(0, 50.0)), Throttle(Request(1, 50.0)), Drain,
                                   Throttle(Request(0, 100.0)), Drain]);
      && s.table.total == 100.0 && Sum(s.table.values) == 150.0
      && Slice(Sum(s.table.values), 100000) == 150000.0
  {
    hide Sum;
    var a, b, c := Request(0, 50.0), Request(1, 50.0), Request(0, 100.0);
    var two := Table(map[0 := 50.0, 1 := 50.0], 100.0);
    var full := Table(map[0 := 100.0, 1 := 50.0], 100.0);
    AddTwo(INITIAL.table, a, b);
    assert Add(Add(INITIAL.table, a), b) == two;
    AddOne(two, c);
    assert Add(two, c) == full;
    var s1 := Next(Next(INITIAL, Throttle(a)), Throttle(b));
    assert s1 == State(INITIAL.table, [a, b], []);
    assert Next(s1, Drain) == State(two, [], []);
    var s3 := Next(State(two, [], []), Throttle(c));
    assert s3 == State(two, [c], []);
    assert Next(s3, Drain) == State(full, [], []);
    RunFive(INITIAL, Throttle(a), Throttle(b), Drain, Throttle(c), Drain);
    SumNothing(0);
    SumUpdate(map[], 0, 100.0);
    SumUpdate(map[0 := 100.0], 1, 50.0);
    assert map[0 := 100.0][1 := 50.0] == full.values;
  }

  /** A process that is throttled to 100 dies, and nothing is ever throttled again:
      whatever happens, the table stays empty and every request is refused. */
  lemma DeathEndsThrottling(actions: seq<Action>)
    ensures var s := Run(INITIAL, [Throttle(Request(0, 100.0)), Drain, Reap({0})] + actions);
      && s.table.values == map[] && s.toAdd == []
      && forall r: Request :: r.percentage > 0.0 ==> !Admits(s.table, r)
  {
    var r := Request(0, 100.0);
    var t := Table(map[0 := 100.0], 100.0);
    var spent := Table(map[], 100.0);
    var s1 := Next(INITIAL, Throttle(r));
    assert s1 == State(INITIAL.table, [r], []);
    AddOne(INITIAL.table, r);
    assert Next(s1, Drain) == State(t, [], []);
    assert Next(State(t, [], []), Reap({0})) == State(spent, [], []);
    RunThree(INITIAL, Throttle(r), Drain, Reap({0}), actions);
    NothingLands(State(spent, [], []), actions);
  }

  lemma {:induction false} NothingLands(s: State, actions: seq<Action>)
    requires s.table == Table(map[], 100.0) && s.toAdd == []
    ensures Run(s, actions).table == s.table && Run(s, actions).toAdd == []
    decreases |actions|
  {
    if actions != [] {
      NothingToRemove(s.table, s.toRemove);
      var next := Next(s, actions[0]);
      assert actions[0].Reap? ==> next.table.values == map[];
      NothingLands(next, actions[1..]);
    }
  }

  lemma {:induction false} NothingToRemove(t: Table, ps: seq<Process>)
    requires t.values == map[]
    ensures RemoveAll(t, ps) == t
    decreases |ps|
  {
    if ps != [] {
      NothingToRemove(t, ps[1..]);
    }
  }

  lemma RunThree(s: State, a: Action, b: Action, c: Action, rest: seq<Action>)
    ensures Run(s, [a, b, c] + rest) == Run(Next(Next(Next(s, a), b), c), rest)
  {
    hide Next;
    var s1 := Next(s, a);
    var s2 := Next(s1, b);
    assert ([a, b, c] + rest)[1..] == [b, c] + rest;
    assert ([b, c] + rest)[1..] == [c] + rest;
    assert ([c] + rest)[1..] == rest;
    assert Run(s, [a, b, c] + rest) == Run(s1, [b, c] + rest);
    assert Run(s1, [b, c] + rest) == Run(s2, [c] + rest);
  }

  /** Two requests are accepted, and only the first takes effect. */
  lemma AcceptedAndDropped()
    ensures var a, b := Request(0, 60.0), Request(1, 60.0);
      var s := Run(INITIAL, [Throttle(a), Throttle(b)]);
      && s.toAdd == [a, b]
      && Run(INITIAL, [Throttle(a), Throttle(b), Drain]).table == Table(map[0 := 60.0], 60.0)
  {
    var a, b := Request(0, 60.0), Request(1, 60.0);
    var s1 := Next(INITIAL, Throttle(a));
    assert s1 == State(INITIAL.table, [a], []);
    var s2 := Next(s1, Throttle(b));
    assert s2 == State(INITIAL.table, [a, b], []);
    assert Run(s1, [Throttle(b)]) == Run(s2, []);
    assert Run(INITIAL, [Throttle(a), Throttle(b)]) == Run(s1, [Throttle(b)]);
    RunThree(INITIAL, Throttle(a), Throttle(b), Drain, []);
    assert [Throttle(a), Throttle(b), Drain] + [] == [Throttle(a), Throttle(b), Drain];
    AddTwo(INITIAL.table, a, b);
    assert Add(INITIAL.table, a) == Table(map[0 := 60.0], 60.0);
  }

  /** A lowered share can be taken back by raising it again. */
  lemma LostComesBack()
    ensures var t := Table(map[0 := 50.0], 100.0);
      && Safe(t) && Lost(t) == 50.0
      && Safe(Add(t, Request(0, 100.0))) && Lost(Add(t, Request(0, 100.0))) == 0.0
  {
    SumNothing(0);
    SumUpdate(map[], 0, 50.0);
    assert map[][0 := 50.0] == map[0 := 50.0];
    SumUpdate(map[0 := 50.0], 0, 100.0);
  }

  lemma AddOne(t: Table, a: Request)
    ensures AddAll(t, [a]) == Add(t, a)
  {
    assert [a][1..] == [];
  }

  lemma AddTwo(t: Table, a: Request, b: Request)
    ensures AddAll(t, [a, b]) == Add(Add(t, a), b)
  {
    assert [a, b][1..] == [b];
    AddOne(Add(t, a), b);
  }

  lemma RunFive(s: State, a: Action, b: Action, c: Action, d: Action, e: Action)
    ensures Run(s, [a, b, c, d, e]) == Next(Next(Next(Next(Next(s, a), b), c), d), e)
  {
    hide Next;
    assert Run(s, [a, b, c, d, e]) == Run(Next(s, a), [b, c, d, e]);
    RunFour(Next(s, a), b, c, d, e);
  }

  lemma RunFour(s: State, a: Action, b: Action, c: Action, d: Action)
    ensures Run(s, [a, b, c, d]) == Next(Next(Next(Next(s, a), b), c), d)
  {
    hide Next;
    var s1 := Next(s, a);
    var s2 := Next(s1, b);
    var s3 := Next(s2, c);
    assert Run(s, [a, b, c, d]) == Run(s1, [b, c, d]);
    assert Run(s1, [b, c, d]) == Run(s2, [c, d]);
    assert Run(s2, [c, d]) == Run(s3, [d]);
    assert Run(s3, [d]) == Run(Next(s3, d), []);
  }

  /** A landing request is put into force. */
  predicate TakesEffect(t: Table, r: Request) {
    var after := Add(t, r).values;
    r.process in after && after[r.process] == r.percentage
  }

  ghost predicate AllTakeEffect(t: Table, rs: seq<Request>) {
    forall i :: 0 <= i < |rs| ==> TakesEffect(AddAll(t, rs[..i]), rs[i])
  }

  /** What a queue asks for in all: for each process that is not known yet the percentage
      of its first request. */
  ghost function NewShares(known: set<Process>, rs: seq<Request>): real
    decreases |rs|
  {
    if rs == [] then 0.0
    else if rs[0].process in known then NewShares(known, rs[1..])
    else rs[0].percentage + NewShares(known + {rs[0].process}, rs[1..])
  }

  ghost predicate AllPositive(rs: seq<Request>) {
    forall i :: 0 <= i < |rs| ==> rs[i].percentage > 0.0
  }

  lemma {:induction false} NewSharesPositive(known: set<Process>, rs: seq<Request>)
    requires AllPositive(rs)
    ensures NewShares(known, rs) >= 0.0
    decreases |rs|
  {
    if rs != [] { NewSharesPositive(known + {rs[0].process}, rs[1..]); NewSharesPositive(known, rs[1..]); }
  }

  lemma AllTakeEffectStep(t: Table, rs: seq<Request>)
    requires rs != []
    ensures AllTakeEffect(t, rs) <==> TakesEffect(t, rs[0]) && AllTakeEffect(Add(t, rs[0]), rs[1..])
  {
    hide TakesEffect, Add;
    forall i | 0 <= i < |rs|
      ensures AddAll(t, rs[..i]) == if i == 0 then t else AddAll(Add(t, rs[0]), rs[1..][..i - 1])
    {
      if i > 0 { assert rs[..i][1..] == rs[1..][..i - 1]; }
    }
    if TakesEffect(t, rs[0]) && AllTakeEffect(Add(t, rs[0]), rs[1..]) {
      forall i | 0 <= i < |rs|
        ensures TakesEffect(AddAll(t, rs[..i]), rs[i])
      {
        if i > 0 { assert TakesEffect(AddAll(Add(t, rs[0]), rs[1..][..i - 1]), rs[1..][i - 1]); }
      }
    }
    if AllTakeEffect(t, rs) {
      assert TakesEffect(AddAll(t, rs[..0]), rs[0]);
      forall i | 0 <= i < |rs| - 1
        ensures TakesEffect(AddAll(Add(t, rs[0]), rs[1..][..i]), rs[1..][i])
      {
        assert TakesEffect(AddAll(t, rs[..i + 1]), rs[i + 1]);
      }
    }
  }

  /** Each request is admitted against the counter as it is, without those before it in
      the queue.  Whatever the queue holds, every request of it takes effect when it lands
      exactly when the counter has room for the first requests of all processes that are
      new; otherwise some caller was told yes and nothing came of it. */
  lemma {:induction false} AllLandExactly(t: Table, rs: seq<Request>)
    requires AllPositive(rs) && t.total <= LIMIT
    ensures AllTakeEffect(t, rs) <==> t.total + NewShares(t.values.Keys, rs) <= LIMIT
    decreases |rs|
  {
    if rs != [] {
      AllTakeEffectStep(t, rs);
      var u, rest := Add(t, rs[0]), rs[1..];
      NewSharesPositive(t.values.Keys + {rs[0].process}, rest);
      if TakesEffect(t, rs[0]) {
        AllLandExactly(u, rest);
        assert u.values.Keys == t.values.Keys + {rs[0].process};
        assert rs[0].process in t.values ==> u.values.Keys == t.values.Keys;
      }
    }
  }
}
