/** The queue of input reports of a HID device (hid.c): a linked list that the read
    thread appends to and readers take from, under a mutex. */
module HidQueue {
  import opened Options

  type Byte = x: nat | x < 256 witness 0

  /** The reports kept at most: 30 hops before the appended one, and both ends. */
  const CAPACITY := 32

  class InputReport {
    const data: seq<Byte>
    var next: InputReport?

    constructor (data: seq<Byte>)
      ensures this.data == data && next == null
    {
      this.data := data;
      next := null;
    }
  }

  ghost function Contents(s: seq<InputReport>): (c: seq<seq<Byte>>)
    ensures |c| == |s|
  {
    seq(|s|, i requires 0 <= i < |s| => s[i].data)
  }

  // ---------------------------------------------------------------------
  // The queue as a value

  datatype Status = Completed | Cancelled | NoDevice | TimedOut | Other

  /** What happens to the queue: a transfer of the reading thread ends, and is submitted
      again or not, or a reader that finds a report takes it. */
  datatype Event = Callback(status: Status, bytes: seq<Byte>, resubmits: bool) | Take(length: nat)

  datatype Queue = Queue(reports: seq<seq<Byte>>, shutdown: bool)

  /** What became of a report that has left the queue. */
  datatype Removal = Delivered(data: seq<Byte>, copied: seq<Byte>) | Dropped(data: seq<Byte>)

  function Prefix(s: seq<Byte>, n: nat): seq<Byte> {
    if n <= |s| then s[..n] else s
  }

  predicate Arrives(e: Event) {
    e.Callback? && e.status.Completed?
  }

  function Brings(e: Event): seq<seq<Byte>> {
    if Arrives(e) then [e.bytes] else []
  }

  function Apply(q: Queue, e: Event): Queue {
    match e
    case Callback(status, bytes, resubmits) =>
      Queue(if !status.Completed? then q.reports
            else if |q.reports| < CAPACITY then q.reports + [bytes]
            else q.reports[1..] + [bytes],
            q.shutdown || status.Cancelled? || status.NoDevice? || !resubmits)
    case Take(_) => if q.reports == [] then q else q.(reports := q.reports[1..])
  }

  function Leaves(q: Queue, e: Event): seq<Removal> {
    if q.reports == [] then []
    else if e.Take? then [Delivered(q.reports[0], Prefix(q.reports[0], e.length))]
    else if Arrives(e) && |q.reports| >= CAPACITY then [Dropped(q.reports[0])]
    else []
  }

  /** The queue after some events, from the start. */
  function After(es: seq<Event>): Queue {
    if es == [] then Queue([], false) else Apply(After(es[..|es| - 1]), es[|es| - 1])
  }

  /** What has left it, in order. */
  function Left(es: seq<Event>): seq<Removal> {
    if es == [] then []
    else Left(es[..|es| - 1]) + Leaves(After(es[..|es| - 1]), es[|es| - 1])
  }

  /** What has arrived, in order. */
  function Arrivals(es: seq<Event>): seq<seq<Byte>> {
    if es == [] then []
    else
      Arrivals(es[..|es| - 1]) + Brings(es[|es| - 1])
  }

  ghost function Datas(rs: seq<Removal>): (s: seq<seq<Byte>>)
    ensures |s| == |rs|
  {
    seq(|rs|, i requires 0 <= i < |rs| => rs[i].data)
  }

  /** One event moves reports through the queue from one end to the other. */
  lemma ApplyMoves(q: Queue, e: Event)
    ensures Datas(Leaves(q, e)) + Apply(q, e).reports == q.reports + Brings(e)
    ensures |q.reports| <= CAPACITY ==> |Apply(q, e).reports| <= CAPACITY
  {
    var out := Leaves(q, e);
    if out != [] {
      assert Datas(out) == [q.reports[0]];
      assert q.reports == [q.reports[0]] + q.reports[1..];
    }
  }

  /** Whatever happens, what has left the queue and what is in it are, in this order, all
      that has arrived, and no more than 32 are queued. */
  lemma {:induction false} OldestFirst(es: seq<Event>)
    ensures Datas(Left(es)) + After(es).reports == Arrivals(es)
    ensures |After(es).reports| <= 32
  {
    hide Apply, Leaves, Arrives;
    if es != [] {
      var before, e := es[..|es| - 1], es[|es| - 1];
      OldestFirst(before);
      var q := After(before);
      ApplyMoves(q, e);
      var a, b, c := Datas(Left(before)), Datas(Leaves(q, e)), Apply(q, e).reports;
      assert Datas(Left(es)) == a + b;
      assert (a + b) + c == a + (b + c);
      assert a + (q.reports + Brings(e)) == (a + q.reports) + Brings(e);
    }
  }

  /** A callback after which the device is given up: its transfer was cancelled or found no
      device, or could not be submitted again. */
  predicate EndsReading(e: Event) {
    e.Callback? && (e.status == Cancelled || e.status == NoDevice || !e.resubmits)
  }

  /** Reading has been shut down exactly if some callback was such an end; no time-out, no
      other status and no reader causes it, and nothing takes it back. */
  lemma {:induction false} ShutdownExactly(es: seq<Event>)
    ensures After(es).shutdown <==> exists i :: 0 <= i < |es| && EndsReading(es[i])
  {
    if es != [] {
      var before := es[..|es| - 1];
      ShutdownExactly(before);
      assert forall i :: 0 <= i < |before| ==> before[i] == es[i];
      if i :| 0 <= i < |before| && EndsReading(before[i]) {
        assert EndsReading(es[i]);
      }
    }
  }

  /** Exactly the completed transfers bring a report. */
  lemma ArrivalsExactly(es: seq<Event>, e: Event)
    ensures Arrivals(es + [e]) == Arrivals(es) + if e.Callback? && e.status == Completed then [e.bytes] else []
  {
    assert (es + [e])[..|es|] == es;
  }

  /** The n-th event is the arrival that finds report i at the head of 32. */
  predicate Pushes(es: seq<Event>, n: nat, i: nat) {
    n < |es| && Arrives(es[n]) && |Left(es[..n])| == i && |Arrivals(es[..n])| == i + 32
  }

  /** The report that left as number i was dropped, instead of delivered, exactly if it
      was still the first when the one 32 places behind it arrived. */
  lemma {:induction false} DroppedExactly(es: seq<Event>, i: nat)
    requires i < |Left(es)|
    ensures Left(es)[i].Dropped? <==> exists n :: Pushes(es, n, i)
  {
    hide Apply, Leaves, Pushes;
    var before, e := es[..|es| - 1], es[|es| - 1];
    forall n: nat
      ensures n < |before| ==> Pushes(es, n, i) == Pushes(before, n, i)
      ensures n > |before| ==> !Pushes(es, n, i)
    {
      PushesBefore(es, n, i);
    }
    LastPushes(es, i);
    if i < |Left(before)| {
      DroppedExactly(before, i);
      assert Left(es)[i] == Left(before)[i];
      forall n: nat
        ensures n >= |before| ==> !Pushes(before, n, i)
      {
        PushesBefore(before, n, i);
      }
      if n :| Pushes(before, n, i) {
        assert Pushes(es, n, i);
      }
    } else {
      LeavesLast(es, i);
      forall n: nat
        ensures n < |before| && Pushes(es, n, i) ==> |Left(before)| > i
      {
        if n < |before| && Pushes(es, n, i) {
          PushedOut(es, n, i);
        }
      }
    }
  }

  lemma PushesBefore(es: seq<Event>, n: nat, i: nat)
    ensures n >= |es| ==> !Pushes(es, n, i)
    ensures es != [] && n < |es| - 1 ==> Pushes(es, n, i) == Pushes(es[..|es| - 1], n, i)
  {
    if es != [] && n < |es| - 1 {
      assert es[..|es| - 1][..n] == es[..n];
    }
  }

  lemma LastPushes(es: seq<Event>, i: nat)
    requires es != []
    ensures var before, e := es[..|es| - 1], es[|es| - 1];
      Pushes(es, |es| - 1, i) <==> Arrives(e) && |Left(before)| == i && |After(before).reports| == CAPACITY
  {
    hide Left, Arrivals, After;
    OldestFirst(es[..|es| - 1]);
  }

  lemma LeavesLast(es: seq<Event>, i: nat)
    requires es != [] && |Left(es[..|es| - 1])| <= i < |Left(es)|
    ensures var before, e := es[..|es| - 1], es[|es| - 1];
      && i == |Left(before)|
      && (Left(es)[i].Dropped? <==> Arrives(e) && |After(before).reports| == CAPACITY)
  {
    OldestFirst(es[..|es| - 1]);
  }

  /** A report that has been pushed out has left. */
  lemma PushedOut(es: seq<Event>, n: nat, i: nat)
    requires n < |es| - 1 && Pushes(es, n, i)
    ensures |Left(es[..|es| - 1])| > i
  {
    hide Left, Arrivals, After, Pushes;
    var upTo := es[..n + 1];
    PushesPrefix(es, n, i);
    LeftAtPush(upTo, i);
    LeftGrows(es[..|es| - 1], n + 1);
    assert es[..|es| - 1][..n + 1] == upTo;
  }

  lemma PushesPrefix(es: seq<Event>, n: nat, i: nat)
    requires Pushes(es, n, i)
    ensures n < |es| && Pushes(es[..n + 1], n, i)
  {
    assert es[..n + 1][..n] == es[..n];
  }

  lemma LeftAtPush(es: seq<Event>, i: nat)
    requires es != [] && Pushes(es, |es| - 1, i)
    ensures |Left(es)| == i + 1
  {
    LastPushes(es, i);
  }

  lemma {:induction false} LeftGrows(es: seq<Event>, n: nat)
    requires n <= |es|
    ensures |Left(es[..n])| <= |Left(es)|
  {
    if n < |es| {
      LeftGrows(es[..|es| - 1], n);
      assert es[..|es| - 1][..n] == es[..n];
    } else {
      assert es[..n] == es;
    }
  }

  lemma AfterSnoc(es: seq<Event>, e: Event)
    ensures After(es + [e]) == Apply(After(es), e)
  {
    assert (es + [e])[..|es|] == es;
  }

  // ---------------------------------------------------------------------
  // The code

  /** How a wait on the condition ends. */
  datatype Result = Signalled | Expired | Failed

  /** A wait: what happens while the mutex is free, and how it ends. */
  datatype Wait = Wait(events: seq<Event>, result: Result)

  function Events(waits: seq<Wait>): seq<Event> {
    if waits == [] then [] else Events(waits[..|waits| - 1]) + waits[|waits| - 1].events
  }

  lemma EventsNothing(waits: seq<Wait>)
    ensures Events(waits[..0]) == []
  {
  }

  lemma EventsSnoc(waits: seq<Wait>, n: nat)
    requires n < |waits|
    ensures Events(waits[..n + 1]) == Events(waits[..n]) + waits[n].events
  {
    assert waits[..n + 1][..n] == waits[..n];
  }

  datatype Got = Bytes(n: nat) | Gone | Nothing | Broken | StillWaiting

  /** Nothing to read and no reason to give up. */
  predicate Idle(q: Queue) {
    q.reports == [] && !q.shutdown
  }

  class HidDevice {
    var inputReports: InputReport?
    var shutdownThread: bool
    var cancelled: bool
    ghost var reports: seq<InputReport>          // the linked reports, in order
    ghost var history: seq<Event>                // all that has happened

    ghost predicate Linked()
      reads this, reports
    {
      && (reports == [] ==> inputReports == null)
      && (reports != [] ==> inputReports == reports[0] && reports[|reports| - 1].next == null)
      && (forall i :: 0 <= i < |reports| - 1 ==> reports[i].next == reports[i + 1])
      && (forall i, j :: 0 <= i < j < |reports| ==> reports[i] != reports[j])
    }

    ghost function QueueOf(): Queue
      reads this
    {
      Queue(Contents(reports), shutdownThread)
    }

    /** The list holds the queue that the events have led to. */
    ghost predicate Valid()
      reads this, reports
    {
      Linked() && QueueOf() == After(history)
    }

    constructor ()
      ensures Valid() && history == []
    {
      inputReports, shutdownThread, cancelled := null, false, false;
      reports, history := [], [];
    }

    /** return_data: copy what fits of the first report and unlink it. */
    method ReturnData(data: array<Byte>, length: nat) returns (len: nat)
      requires Linked() && reports != [] && length <= data.Length
      modifies this`inputReports, this`reports, data
      ensures Linked() && reports == old(reports)[1..]
      ensures len == if length < |old(reports)[0].data| then length else |old(reports)[0].data|
      ensures data[..len] == old(reports)[0].data[..len] == Prefix(old(reports)[0].data, length)
      ensures data[len..] == old(data[len..])
    {
      var rpt := inputReports;
      len := if length < |rpt.data| then length else |rpt.data|;
      if len > 0 {
        forall i | 0 <= i < len {
          data[i] := rpt.data[i];
        }
      }
      inputReports := rpt.next;
      reports := reports[1..];
    }

    lemma EndAt(i: nat)
      requires Linked() && i < |reports|
      ensures reports[i].next == null <==> i == |reports| - 1
    {
      if i < |reports| - 1 {
        assert reports[i].next == reports[i + 1];
      }
    }

    /** The end of the list and the number of hops to it. */
    method Last() returns (cur: InputReport, numQueued: nat)
      requires Linked() && reports != []
      ensures cur == reports[|reports| - 1] && numQueued == |reports| - 1
    {
      cur, numQueued := inputReports, 0;
      EndAt(0);
      while cur.next != null
        invariant numQueued < |reports| && cur == reports[numQueued]
        invariant cur.next == null <==> numQueued == |reports| - 1
        decreases |reports| - numQueued
      {
        cur := cur.next;
        numQueued := numQueued + 1;
        EndAt(numQueued);
      }
    }

    method Append(rpt: InputReport)
      requires Linked() && rpt !in reports && rpt.next == null
      modifies this`inputReports, this`reports, reports`next
      ensures Linked() && reports == old(reports) + [rpt]
    {
      if inputReports == null {
        inputReports := rpt;
      } else {
        var cur, _ := Last();
        cur.next := rpt;
      }
      reports := reports + [rpt];
    }

    /** read_callback for a transfer that has completed.  The new report goes to the end;
        with 32 queued already the oldest is dropped, and only then. */
    method Arrive(bytes: seq<Byte>) returns (signal: bool)
      requires Linked() && |reports| <= CAPACITY
      modifies this`inputReports, this`reports, reports`next
      ensures Linked() && fresh(set x | x in reports && x !in old(reports))
      ensures signal <==> old(reports) == []
      ensures Contents(reports) == if |old(reports)| == CAPACITY then old(Contents(reports))[1..] + [bytes]
                                   else old(Contents(reports)) + [bytes]
    {
      var rpt := new InputReport(bytes);
      signal := inputReports == null;
      if signal {
        Append(rpt);
      } else {
        var _, numQueued := Last();
        Append(rpt);
        assert Contents(reports) == Contents(old(reports)) + [bytes];
        if numQueued > 30 {
          var none := new Byte[0];
          var _ := ReturnData(none, 0);
        }
      }
    }

    method ReadCallback(status: Status, bytes: seq<Byte>, resubmits: bool) returns (signal: bool)
      requires Valid()
      modifies this, reports`next
      ensures Valid() && history == old(history) + [Callback(status, bytes, resubmits)]
      ensures signal <==> status.Completed? && old(reports) == []
      ensures cancelled <==> old(cancelled) || EndsReading(Callback(status, bytes, resubmits))
      ensures fresh(set x | x in reports && x !in old(reports))
    {
      hide After, Left, Arrivals, Datas;
      OldestFirst(history);
      AfterSnoc(history, Callback(status, bytes, resubmits));
      history := history + [Callback(status, bytes, resubmits)];
      signal := false;
      if status.Completed? {
        signal := Arrive(bytes);
      } else if status.Cancelled? || status.NoDevice? {
        shutdownThread := true;
        cancelled := true;
        return;
      }
      if !resubmits {
        shutdownThread := true;
        cancelled := true;
      }
    }

    /** A reader that finds a report. */
    method TakeFirst(data: array<Byte>, length: nat) returns (len: nat)
      requires Valid() && reports != [] && length <= data.Length
      modifies this`inputReports, this`reports, this`history, data
      ensures Valid() && history == old(history) + [Take(length)]
      ensures len <= length && data[len..] == old(data[len..]) && reports == old(reports)[1..]
      ensures len == (if length < |old(reports)[0].data| then length else |old(reports)[0].data|)
      ensures data[..len] == After(old(history)).reports[0][..len] == Prefix(After(old(history)).reports[0], length)
      ensures Left(history) == Left(old(history)) + [Delivered(old(reports)[0].data, data[..len])]
    {
      AfterSnoc(history, Take(length));
      assert (history + [Take(length)])[..|history|] == history;
      history := history + [Take(length)];
      len := ReturnData(data, length);
    }

    lemma NoReports()
      requires Linked()
      ensures inputReports == null <==> reports == []
    {
    }

    /** One thing that another thread does while a reader waits. */
    method Other(e: Event)
      requires Valid()
      modifies this, reports`next
      ensures Valid() && history == old(history) + [e]
      ensures fresh(set x | x in reports && x !in old(reports))
    {
      hide After, Left;
      match e {
        case Callback(status, bytes, resubmits) =>
          var _ := ReadCallback(status, bytes, resubmits);
        case Take(length) =>
          if inputReports != null {
            var buffer := new Byte[length];
            var _ := TakeFirst(buffer, length);
          } else {
            AfterSnoc(history, e);
            history := history + [e];
          }
      }
    }

    method Others(events: seq<Event>)
      requires Valid()
      modifies this, reports`next
      ensures Valid() && history == old(history) + events
      ensures fresh(set x | x in reports && x !in old(reports))
    {
      hide After, Left, Contents, Linked;
      var i := 0;
      while i < |events|
        invariant 0 <= i <= |events| && Valid() && history == old(history) + events[..i]
        invariant fresh(set x | x in reports && x !in old(reports))
      {
        Other(events[i]);
        i := i + 1;
        assert events[..i] == events[..i - 1] + [events[i - 1]];
      }
      assert events[..i] == events;
    }

    /** The loops around the waits, with or without a limit of time. */
    method Await(timed: bool, waits: seq<Wait>) returns (result: Result, i: nat)
      requires Valid()
      modifies this, reports`next
      ensures Valid() && i <= |waits| && history == old(history) + Events(waits[..i])
      ensures forall j :: 0 <= j < i ==> Idle(After(old(history) + Events(waits[..j])))
      ensures result == if timed && i > 0 then waits[i - 1].result else Signalled
      ensures result.Signalled? && Idle(QueueOf()) ==> i == |waits|
      ensures fresh(set x | x in reports && x !in old(reports))
    {
      hide After, Left, Linked, Events;
      i := 0;
      EventsNothing(waits);
      assert old(history) + [] == old(history);
      NoReports();
      while i < |waits| && inputReports == null && !shutdownThread
        invariant 0 <= i <= |waits| && Valid()
        invariant inputReports == null <==> reports == []
        invariant history == old(history) + Events(waits[..i])
        invariant forall j :: 0 <= j < i ==> Idle(After(old(history) + Events(waits[..j])))
        invariant timed && i > 0 ==> waits[i - 1].result.Signalled?
        invariant fresh(set x | x in reports && x !in old(reports))
      {
        EventsSnoc(waits, i);
        assert Idle(After(old(history) + Events(waits[..i])));
        assert (old(history) + Events(waits[..i])) + waits[i].events == old(history) + Events(waits[..i + 1]);
        Others(waits[i].events);
        NoReports();
        i := i + 1;
        if timed && !waits[i - 1].result.Signalled? {
          return waits[i - 1].result, i;
        }
      }
      result := Signalled;
    }

    /** hid_read_timeout with the waits that it may make.  It returns at the first moment
        with a report or a shutdown, or when a timed wait does not end with a signal. */
    method Read(data: array<Byte>, length: nat, milliseconds: int, waits: seq<Wait>)
        returns (got: Got, used: nat)
      requires Valid() && length <= data.Length
      modifies this, reports`next, data
      ensures Valid() && used <= |waits|
      ensures history == old(history) + Events(waits[..used]) + if got.Bytes? then [Take(length)] else []
      ensures var q := After(old(history) + Events(waits[..used]));
        var timed := used > 0 && milliseconds > 0;
        && (forall i :: 0 <= i < used ==> Idle(After(old(history) + Events(waits[..i]))))
        && (used > 0 ==> milliseconds == -1 || milliseconds > 0)
        && (got.Bytes? <==> q.reports != [] && !(timed && !waits[used - 1].result.Signalled?))
        && (got.Gone? <==> q.reports == [] && q.shutdown && !(timed && !waits[used - 1].result.Signalled?))
        && (got.Broken? <==> timed && waits[used - 1].result.Failed?)
        && (got.Nothing? <==> if timed then waits[used - 1].result.Expired?
                              else Idle(q) && milliseconds != -1 && milliseconds <= 0)
        && (got.StillWaiting? ==> used == |waits|)
        && (got.Bytes? ==> got.n == (if length < |q.reports[0]| then length else |q.reports[0]|)
                           && data[..got.n] == q.reports[0][..got.n] && data[got.n..] == old(data[got.n..]))
      ensures !got.Bytes? ==> data[..] == old(data[..])
    {
      hide After, Left, Linked, Events, Prefix;
      used := 0;
      EventsNothing(waits);
      assert old(history) + [] == old(history);
      NoReports();
      if inputReports == null && !shutdownThread {
        if milliseconds != -1 && milliseconds <= 0 {
          return Nothing, 0;
        }
        var result;
        result, used := Await(milliseconds > 0, waits);
        if result.Expired? {
          return Nothing, used;
        }
        if result.Failed? {
          return Broken, used;
        }
      }
      NoReports();
      if inputReports != null {
        var n := TakeFirst(data, length);
        return Bytes(n), used;
      }
      got := if shutdownThread then Gone else StillWaiting;
    }
  }

  /** A timed read returns nothing although a report is queued: it does not look after its
      time has run out. */
  method TimedOutBesideReport(milliseconds: int) returns (got: Got, ghost queued: seq<seq<Byte>>)
    requires milliseconds > 0
    ensures got == Nothing && queued == [[7]]
  {
    hide After;
    var device := new HidDevice();
    var report := Callback(Completed, [7], true);
    var waits := [Wait([report], Expired)];
    var data := new Byte[64];
    EventsNothing(waits);
    EventsSnoc(waits, 0);
    assert waits[..1] == waits && [] + [report] == [report];
    AfterNothing();
    AfterSnoc([], report);
    var used;
    got, used := device.Read(data, 64, milliseconds, waits);
    assert [] + Events(waits[..0]) == [];
    assert used == 1;
    assert waits[..0] == [] && Events(waits[..1]) == [report];
    assert device.history == [report];
    queued := After(device.history).reports;
  }

  lemma AfterNothing()
    ensures After([]) == Queue([], false)
  {
  }

  // ---------------------------------------------------------------------
  // Waking readers

  /** A reader is outside, asleep on the condition, or woken and about to look. */
  datatype Phase = Outside | Asleep | Woken

  datatype State = State(queued: nat, readers: seq<Phase>)

  /** Arrive(t): a report arrives; on an empty queue the condition is signalled, which
      wakes sleeper t if there is one.  The mutex makes each step atomic. */
  datatype Action = Arrive(t: nat) | Enter(t: nat) | Look(t: nat) | Spurious(t: nat)

  predicate Enabled(s: State, a: Action) {
    a.t < |s.readers| &&
    match a
    case Arrive(t) => s.queued == 0 && Asleep in s.readers ==> s.readers[t].Asleep?
    case Enter(t) => s.readers[t].Outside?
    case Look(t) => s.readers[t].Woken?
    case Spurious(t) => s.readers[t].Asleep?
  }

  function Next(s: State, a: Action): State
    requires Enabled(s, a)
  {
    match a
    case Arrive(t) =>
      State(if s.queued < CAPACITY then s.queued + 1 else s.queued,
            if s.queued == 0 && s.readers[t].Asleep? then s.readers[t := Woken] else s.readers)
    case Enter(t) => Taken(s, t)
    case Look(t) => Taken(s, t)
    case Spurious(t) => s.(readers := s.readers[t := Woken])
  }

  /** A reader with the mutex: it takes a report, or sleeps. */
  function Taken(s: State, t: nat): State
    requires t < |s.readers|
  {
    if s.queued > 0 then State(s.queued - 1, s.readers[t := Outside])
    else s.(readers := s.readers[t := Asleep])
  }

  datatype Trace = Empty | Step(before: Trace, action: Action)

  function Run(n: nat, t: Trace): Option<State> {
    match t
    case Empty => Some(State(0, seq(n, _ => Outside)))
    case Step(before, a) =>
      match Run(n, before)
      case None => None
      case Some(s) => if Enabled(s, a) then Some(Next(s, a)) else None
  }

  /** What happens to the queue in a run of the readers. */
  function Happened(t: Trace): seq<Event> {
    match t
    case Empty => []
    case Step(before, Arrive(_)) => Happened(before) + [Callback(Completed, [], true)]
    case Step(before, Spurious(_)) => Happened(before)
    case Step(before, _) => Happened(before) + [Take(0)]
  }

  /** The readers and the queue move together: as many reports are queued as the events of
      the run leave there. */
  lemma {:induction false} QueuedExactly(n: nat, t: Trace)
    requires Run(n, t).Some?
    ensures Run(n, t).value.queued == |After(Happened(t)).reports|
  {
    hide After, Left, Arrivals;
    match t
    case Empty => AfterNothing();
    case Step(before, a) =>
      QueuedExactly(n, before);
      OldestFirst(Happened(before));
      AfterSnoc(Happened(before), Callback(Completed, [], true));
      AfterSnoc(Happened(before), Take(0));
  }

  /** An arrival wakes a sleeper exactly if one is there and the queue was empty, and a
      reader that looks leaves exactly if the queue was not. */
  lemma WakesExactly(n: nat, before: Trace, a: Action)
    requires Run(n, Step(before, a)).Some?
    ensures var s, s' := Run(n, before).value, Run(n, Step(before, a)).value;
      var reports := After(Happened(before)).reports;
      && |s.readers| == |s'.readers|
      && (forall i :: 0 <= i < |s.readers| && i != a.t ==> s'.readers[i] == s.readers[i])
      && (a.Arrive? ==> (s'.readers != s.readers <==> reports == [] && Asleep in s.readers)
                        && (s'.readers != s.readers ==> s'.readers[a.t].Woken?))
      && (a.Enter? || a.Look? ==> s'.readers[a.t] == if reports == [] then Asleep else Outside)
  {
    hide After, Left, Arrivals, Happened;
    QueuedExactly(n, before);
  }

  /** A reader sleeps beside a queued report, and none has been woken to take it. */
  predicate Forgotten(s: State) {
    s.queued > 0 && Asleep in s.readers && Woken !in s.readers
  }

  /** A single reader is never forgotten: it sleeps only while the queue is empty. */
  lemma {:induction false} SingleReader(t: Trace)
    requires Run(1, t).Some?
    ensures var s := Run(1, t).value; |s.readers| == 1 && (s.readers[0].Asleep? ==> s.queued == 0)
  {
    match t
    case Empty =>
    case Step(before, a) => SingleReader(before);
  }

  /** With two, both asleep, two reports arrive before the first reader looks: only the
      first report signals, and the other reader sleeps on beside the second. */
  ghost function Forget(): Trace {
    Step(Step(Step(Step(Step(Empty, Enter(0)), Enter(1)), Arrive(0)), Arrive(0)), Look(0))
  }

  lemma {:induction false} RunSize(n: nat, t: Trace)
    requires Run(n, t).Some?
    ensures |Run(n, t).value.readers| == n
  {
    match t
    case Empty =>
    case Step(before, a) => RunSize(n, before);
  }

  lemma ForgetRuns(n: nat)
    requires n >= 2
    ensures Run(n, Forget()).Some? && Forgotten(Run(n, Forget()).value)
  {
    hide Run;
    var s0 := State(0, seq(n, _ => Outside));
    RunStart(n);
    var t1 := Step(Empty, Enter(0));
    RunStep(n, Empty, Enter(0), s0);
    var s1 := State(0, s0.readers[0 := Asleep]);
    var t2 := Step(t1, Enter(1));
    RunStep(n, t1, Enter(1), s1);
    var s2 := State(0, s1.readers[1 := Asleep]);
    var t3 := Step(t2, Arrive(0));
    RunStep(n, t2, Arrive(0), s2);
    var s3 := State(1, s2.readers[0 := Woken]);
    var t4 := Step(t3, Arrive(0));
    RunStep(n, t3, Arrive(0), s3);
    var s4 := State(2, s3.readers);
    RunStep(n, t4, Look(0), s4);
    var s5 := State(1, s4.readers[0 := Outside]);
    assert s5.readers[1].Asleep?;
    assert forall i :: 0 <= i < n ==> !s5.readers[i].Woken?;
  }

  lemma RunStart(n: nat)
    ensures Run(n, Empty) == Some(State(0, seq(n, _ => Outside)))
  {
  }

  lemma RunStep(n: nat, before: Trace, a: Action, s: State)
    requires Run(n, before) == Some(s) && Enabled(s, a)
    ensures Run(n, Step(before, a)) == Some(Next(s, a))
  {
  }

  /** Signalling only on an empty queue is enough exactly for a single reader. */
  lemma ForgottenExactly(n: nat)
    requires n > 0
    ensures (exists t :: Run(n, t).Some? && Forgotten(Run(n, t).value)) <==> n >= 2
  {
    if n >= 2 {
      ForgetRuns(n);
    } else {
      forall t | Run(1, t).Some?
        ensures !Forgotten(Run(1, t).value)
      {
        SingleReader(t);
      }
    }
  }
}
