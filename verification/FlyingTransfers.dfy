/** The circular, intrusive list of in-flight transfers of a libusb context
    (libusbi.h, io.c, core.c), on the heap. */
module FlyingTransfers {
  import opened Deadlines
  import opened TransferQueue
  import opened Options

  /** usbi_transfer_flags. */
  datatype Flags = Flags(timedOut: bool, osHandles: bool, cancelling: bool, disappeared: bool)

  const NO_FLAGS := Flags(false, false, false, false)

  datatype Status = Completed | Error | TimedOut | Cancelled | NoDevice

  const ERROR_NO_DEVICE := -4
  const ERROR_NOT_FOUND := -5
  const ERROR_BUSY := -6
  const ERROR_OTHER := -99
  const CONTROL_SETUP_SIZE := 8

  /** usbi_transfer and libusb_transfer in one object; `prev` and `next` are its
      embedded list_head.  The head of the list is one whose other fields are
      never read. */
  class Transfer {
    var prev: Transfer?
    var next: Transfer?
    var deadline: Timeval          // usbi_transfer.timeout
    var flags: Flags
    var transferred: int
    var timeout: nat               // libusb_transfer.timeout, milliseconds
    var handle: Option<nat>        // dev_handle; None is NULL
    var control: bool              // type == LIBUSB_TRANSFER_TYPE_CONTROL
    var shortNotOk: bool           // LIBUSB_TRANSFER_SHORT_NOT_OK
    var length: int

    constructor (timeout: nat, handle: Option<nat>, control: bool, shortNotOk: bool, length: int)
      ensures this.timeout == timeout && this.handle == handle && this.deadline == Timeval(0, 0)
    {
      this.prev, this.next := null, null;
      this.deadline, this.flags, this.transferred := Timeval(0, 0), NO_FLAGS, 0;
      this.timeout, this.handle := timeout, handle;
      this.control, this.shortNotOk, this.length := control, shortNotOk, length;
    }
  }

  // ---------------------------------------------------------------------
  // list_head

  ghost function Ring(head: Transfer, s: seq<Transfer>): seq<Transfer> {
    [head] + s + [head]
  }

  /** head and s form a circular list without repetitions. */
  ghost predicate Linked(head: Transfer, s: seq<Transfer>)
    reads head`prev, head`next, s`prev, s`next
  {
    && head !in s
    && (forall i, j :: 0 <= i < j < |s| ==> s[i] != s[j])
    && (forall i :: 0 <= i <= |s| ==> Ring(head, s)[i].next == Ring(head, s)[i + 1])
    && (forall i :: 0 < i <= |s| + 1 ==> Ring(head, s)[i].prev == Ring(head, s)[i - 1])
  }

  method ListInit(head: Transfer)
    modifies head`prev, head`next
    ensures Linked(head, [])
  {
    head.prev, head.next := head, head;
  }

  /** Link entry in behind head. */
  method ListAdd(entry: Transfer, head: Transfer, ghost s: seq<Transfer>)
    requires Linked(head, s) && entry != head && entry !in s
    modifies entry`prev, entry`next, head`prev, head`next, s`prev, s`next
    ensures Linked(head, [entry] + s)
  {
    ghost var before := Ring(head, s);
    assert before[0].next == before[1];
    entry.next := head.next;
    entry.prev := head;
    head.next.prev := entry;
    head.next := entry;
    ghost var after := Ring(head, [entry] + s);
    assert forall i :: 2 <= i < |after| ==> after[i] == before[i - 1];
  }

  /** Link entry in before the k-th node of the list, the head counting as the last. */
  method ListAddTail(entry: Transfer, pos: Transfer, ghost head: Transfer, ghost s: seq<Transfer>, ghost k: nat)
    requires Linked(head, s) && entry != head && entry !in s
    requires k <= |s| && pos == Ring(head, s)[k + 1]
    modifies entry`prev, entry`next, head`prev, head`next, s`prev, s`next
    ensures Linked(head, s[..k] + [entry] + s[k..])
  {
    ghost var before := Ring(head, s);
    assert before[k + 1].prev == before[k];
    entry.next := pos;
    entry.prev := pos.prev;
    pos.prev.next := entry;
    pos.prev := entry;
    ghost var after := Ring(head, s[..k] + [entry] + s[k..]);
    assert after == before[..k + 1] + [entry] + before[k + 1..];
    assert forall i :: 0 <= i <= k ==> after[i] == before[i];
    assert forall i :: k + 1 < i < |after| ==> after[i] == before[i - 1];
    forall i | 0 <= i < |after| - 1
      ensures after[i].next == after[i + 1] && after[i + 1].prev == after[i]
    {
      if i < k {
        assert before[i].next == before[i + 1] && before[i + 1].prev == before[i];
      } else if i > k + 1 {
        assert before[i - 1].next == before[i] && before[i].prev == before[i - 1];
      }
    }
  }

  /** Unlink the k-th entry. */
  method ListDel(entry: Transfer, ghost head: Transfer, ghost s: seq<Transfer>, ghost k: nat)
    requires Linked(head, s) && k < |s| && entry == s[k]
    modifies head`prev, head`next, s`prev, s`next
    ensures Linked(head, s[..k] + s[k + 1..])
    ensures entry.next == old(entry.next) && entry.prev == old(entry.prev)
  {
    ghost var before := Ring(head, s);
    assert before[k + 1].next == before[k + 2] && before[k + 1].prev == before[k];
    entry.next.prev := entry.prev;
    entry.prev.next := entry.next;
    ghost var after := Ring(head, s[..k] + s[k + 1..]);
    assert forall i :: 0 <= i <= k ==> after[i] == before[i];
    assert forall i :: k + 1 <= i < |after| ==> after[i] == before[i + 1];
  }

  // ---------------------------------------------------------------------
  // An entry that is linked in twice

  lemma LinkedNeighbours(head: Transfer, s: seq<Transfer>, k: nat)
    requires Linked(head, s) && k < |s|
    ensures s[k].next != null && s[k].next != s[k] && s[k].next.prev == s[k]
  {
    var ring := Ring(head, s);
    assert ring[k + 1].next == ring[k + 2] && ring[k + 2].prev == ring[k + 1];
  }

  /** A walk from the head that does not come back to it sees the first entries. */
  lemma {:induction false} WalkIsPrefix(head: Transfer, t: seq<Transfer>, s: seq<Transfer>, n: nat)
    requires Linked(head, t) && head !in s && n <= |s|
    requires forall i :: 0 <= i < n ==> Ring(head, s)[i].next == Ring(head, s)[i + 1]
    ensures n <= |t| && t[..n] == s[..n]
  {
    if n > 0 {
      WalkIsPrefix(head, t, s, n - 1);
      assert Ring(head, s)[n - 1].next == Ring(head, s)[n] == s[n - 1];
      assert Ring(head, t)[n - 1] == (if n == 1 then head else t[..n - 1][n - 2]) == Ring(head, s)[n - 1];
      assert Ring(head, t)[n - 1].next == Ring(head, t)[n];
      assert s[n - 1] in s;
      assert t[..n] == t[..n - 1] + [t[n - 1]] && s[..n] == s[..n - 1] + [s[n - 1]];
    }
  }

  /** What a walk meets after the j-th entry was linked in again before the k-th node and
      then deleted once: up to the entry all is as it was; behind it follows the k-th
      node.  In front of it or right behind it that closes a circle without the head;
      further behind the nodes between are skipped. */
  ghost predicate Derailed(head: Transfer, s: seq<Transfer>, j: nat, k: nat)
    requires j < |s| && k <= |s|
    reads head`next, s`next, s`prev
  {
    && (forall i :: 0 <= i <= j ==> Ring(head, s)[i].next == Ring(head, s)[i + 1])
    && (forall i :: 0 <= i <= |s| && i != j + 1 ==> Ring(head, s)[i].next == Ring(head, s)[i + 1])
    && s[j].next == (if k == j + 1 then s[j] else Ring(head, s)[k + 1])
    && s[j].prev == (if k == j + 1 then s[j] else Ring(head, s)[k])
  }

  lemma NotLinked(head: Transfer, t: seq<Transfer>, s: seq<Transfer>, j: nat)
    requires head !in s && j < |s|
    requires forall i :: 0 <= i <= j ==> Ring(head, s)[i].next == Ring(head, s)[i + 1]
    requires s[j].next == null || s[j].next == s[j] || s[j].next.prev != s[j]
    ensures !Linked(head, t)
  {
    if Linked(head, t) {
      WalkIsPrefix(head, t, s, j + 1);
      assert t[..j + 1][j] == s[..j + 1][j];
      LinkedNeighbours(head, t, j);
    }
  }

  /** list_add_tail and list_del on an entry that was in the list before. */
  method LinkTwiceAndDelete(entry: Transfer, pos: Transfer, ghost head: Transfer, ghost s: seq<Transfer>,
                            ghost j: nat, ghost k: nat)
    requires Linked(head, s) && j < |s| && entry == s[j]
    requires k <= |s| && k != j && pos == Ring(head, s)[k + 1]
    modifies head`prev, head`next, s`prev, s`next
    ensures Derailed(head, s, j, k)
    ensures forall t :: !Linked(head, t)
  {
    ghost var ring := Ring(head, s);
    assert ring[k + 1].prev == ring[k];
    assert forall i :: 0 <= i <= |s| ==> ring[i].next == ring[i + 1];
    assert forall i :: 1 <= i <= |s| ==> ring[i] == s[i - 1];
    entry.next := pos;
    entry.prev := pos.prev;
    pos.prev.next := entry;
    pos.prev := entry;
    assert entry.next != null && entry.prev != null;
    entry.next.prev := entry.prev;
    entry.prev.next := entry.next;
    forall t {
      NotLinked(head, t, s, j);
    }
  }

  // ---------------------------------------------------------------------
  // Sublists

  /** The elements of s in m, in order. */
  ghost function Within<T>(s: seq<T>, m: set<T>): seq<T> {
    if s == [] then [] else (if s[0] in m then [s[0]] else []) + Within(s[1..], m)
  }

  /** The elements of s outside m, in order. */
  ghost function Without<T>(s: seq<T>, m: set<T>): seq<T> {
    if s == [] then [] else (if s[0] in m then [] else [s[0]]) + Without(s[1..], m)
  }

  /** What one element in the middle adds to the two sublists. */
  lemma {:induction false} SublistSplice<T>(s: seq<T>, x: T, k: nat, m: set<T>)
    requires k <= |s|
    ensures x in m ==> Without(s[..k] + [x] + s[k..], m) == Without(s, m)
    ensures x !in m ==> Within(s[..k] + [x] + s[k..], m) == Within(s, m)
    ensures x in m && (forall i :: 0 <= i < k ==> s[i] !in m) ==>
              Within(s[..k] + [x] + s[k..], m) == [x] + Within(s, m)
  {
    var longer := s[..k] + [x] + s[k..];
    if k == 0 {
      assert longer[1..] == s;
    } else {
      assert longer[1..] == s[1..][..k - 1] + [x] + s[1..][k - 1..];
      SublistSplice(s[1..], x, k - 1, m);
    }
  }

  lemma {:induction false} WithinNone<T>(s: seq<T>, m: set<T>)
    requires forall i :: 0 <= i < |s| ==> s[i] !in m
    ensures Within(s, m) == []
  {
    if s != [] { WithinNone(s[1..], m); }
  }

  lemma {:induction false} WithinSome<T>(s: seq<T>, m: set<T>, k: nat)
    requires k < |s| && s[k] in m
    ensures Within(s, m) != []
  {
    if k > 0 { WithinSome(s[1..], m, k - 1); }
  }

  // ---------------------------------------------------------------------
  // The context

  /** The queue as a value, entry by entry what the linked transfers store. */
  ghost predicate Mirrors(q: seq<Entry<Transfer>>, s: seq<Transfer>)
    reads s`deadline
  {
    && |q| == |s|
    && forall i :: 0 <= i < |s| ==> q[i] == Entry(s[i], s[i].deadline)
  }

  /** A finite deadline that libusb still has to act on. */
  predicate Pending(deadline: Timeval, flags: Flags) {
    IsSet(deadline) && !flags.timedOut && !flags.osHandles
  }

  /** A pending deadline that has passed. */
  predicate Due(deadline: Timeval, flags: Flags, now: Timeval) {
    Pending(deadline, flags) && !After(deadline, now)
  }

  /** The caller waits until the deadline: it comes within the caller's timeout, and an
      int holds the milliseconds until then. */
  predicate WaitsFor(deadline: Timeval, now: Timeval, user: Timeval) {
    Micros(deadline) <= Micros(now) + Micros(user) && FitsPoll(TimeLeft(deadline, now))
  }

  /** The flags after libusb_cancel_transfer with the backend's answer r. */
  function CancelFlags(flags: Flags, r: int): Flags {
    flags.(cancelling := true, disappeared := flags.disappeared || r == ERROR_NO_DEVICE)
  }

  function TimeoutFlags(flags: Flags, r: int): Flags {
    CancelFlags(flags.(timedOut := true), r)
  }

  /** What a cancellation changes: the transfer is being cancelled, and its device is gone
      if it was or if the answer is LIBUSB_ERROR_NO_DEVICE, -4. */
  lemma CancelFlagsExactly(flags: Flags, r: int)
    ensures var f := CancelFlags(flags, r);
      && f.cancelling && (f.disappeared <==> flags.disappeared || r == -4)
      && f.timedOut == flags.timedOut && f.osHandles == flags.osHandles
    ensures var f := TimeoutFlags(flags, r);
      && f.cancelling && (f.disappeared <==> flags.disappeared || r == -4)
      && f.timedOut && f.osHandles == flags.osHandles
  {
  }

  /** A transfer is due exactly if its deadline is not zero and has passed, and it has not
      timed out before and is not timed by the system. */
  lemma DueExactly(deadline: Timeval, flags: Flags, now: Timeval)
    requires NearlyNormal(deadline) && Normal(now)
    ensures Pending(deadline, flags) <==> Micros(deadline) > 0 && !flags.timedOut && !flags.osHandles
    ensures Due(deadline, flags, now)
       <==> 0 < Micros(deadline) <= Micros(now) && !flags.timedOut && !flags.osHandles
  {
    OrderRespectsTime(deadline, now);
  }

  datatype Completion = Completion(transfer: Transfer, status: Status, actualLength: int)

  class Context {
    const head: Transfer
    ghost var flying: seq<Transfer>            // the linked transfers, in order
    ghost var queue: seq<Entry<Transfer>>      // the same with their deadlines
    ghost var arrivals: seq<Entry<Transfer>>   // submissions still in flight, in order
    var completions: seq<Completion>           // callbacks made, in order

    ghost predicate Valid()
      reads this, head`prev, head`next, flying`prev, flying`next, flying`deadline
    {
      && Linked(head, flying) && Mirrors(queue, flying)
      && Distinct(arrivals) && queue == SortOf(arrivals)
      && (forall i :: 0 <= i < |flying| ==> NearlyNormal(flying[i].deadline))
    }

    constructor (h: Transfer)
      modifies h`prev, h`next
      ensures Valid() && head == h && flying == [] && arrivals == [] && completions == []
    {
      head := h;
      flying, queue, arrivals, completions := [], [], [], [];
      new;
      ListInit(h);
    }

    /** The list is sorted by stored deadline, transfers without one last. */
    lemma Ordered()
      requires Valid()
      ensures forall i, j :: 0 <= i < j < |flying| ==> NotLater(flying[i].deadline, flying[j].deadline)
    {
      SortOfSorted(arrivals);
      assert forall i :: 0 <= i < |flying| ==> queue[i].deadline == flying[i].deadline;
    }

    lemma Head()
      requires Linked(head, flying)
      ensures head.next == (if flying == [] then head else flying[0])
    {
      assert Ring(head, flying)[0].next == Ring(head, flying)[1];
    }

    /** One step of list_for_each_entry. */
    lemma Following(k: nat)
      requires Linked(head, flying) && k < |flying|
      ensures Ring(head, flying)[k + 1] == flying[k] != head
      ensures flying[k].next == Ring(head, flying)[k + 2]
    {
      assert Ring(head, flying)[k + 1].next == Ring(head, flying)[k + 2];
    }

    // ----- linking and unlinking

    /** The search of add_to_flying_list: the first entry that is later. */
    method FindLater(deadline: Timeval) returns (pos: Transfer, first: int, ghost k: nat)
      requires Linked(head, flying) && IsSet(deadline)
      ensures k <= |flying| && pos == Ring(head, flying)[k + 1]
      ensures first == if k == 0 then 1 else 0
      ensures forall i :: 0 <= i < k ==> NotLater(flying[i].deadline, deadline)
      ensures k < |flying| ==> !NotLater(flying[k].deadline, deadline)
    {
      Head();
      pos := head.next;
      first := 1;
      k := 0;
      while pos != head
        invariant 0 <= k <= |flying| && pos == Ring(head, flying)[k + 1]
        invariant first == if k == 0 then 1 else 0
        invariant forall i :: 0 <= i < k ==> NotLater(flying[i].deadline, deadline)
        decreases |flying| - k
      {
        if !IsSet(pos.deadline) || After(pos.deadline, deadline) {
          break;
        }
        first := 0;
        Following(k);
        pos := pos.next;
        k := k + 1;
      }
    }

    /** The three ways add_to_flying_list links a transfer in: into an empty list,
        at the end, or in front of the first later entry. */
    method LinkByDeadline(transfer: Transfer) returns (r: int, ghost k: nat)
      requires Valid() && transfer != head && transfer !in flying
      modifies head`prev, head`next, flying`prev, flying`next, transfer`prev, transfer`next
      ensures k <= |flying| && Linked(head, flying[..k] + [transfer] + flying[k..])
      ensures forall i :: 0 <= i < k ==> NotLater(flying[i].deadline, transfer.deadline)
      ensures k < |flying| ==> !NotLater(flying[k].deadline, transfer.deadline)
      ensures r == if IsSet(transfer.deadline) && k == 0 then 1 else 0
    {
      Head();
      r, k := 0, 0;
      if head.next == head {
        ListAdd(transfer, head, flying);
        if IsSet(transfer.deadline) { r := 1; }
        assert [transfer] + flying == flying[..0] + [transfer] + flying[0..];
      } else if !IsSet(transfer.deadline) {
        k := |flying|;
        ListAddTail(transfer, head, head, flying, k);
      } else {
        var pos;
        pos, r, k := FindLater(transfer.deadline);
        ListAddTail(transfer, pos, head, flying, k);
      }
    }

    /** Insert by deadline.  Returns 1 exactly when the transfer has a deadline and
        is now the first of the list. */
    method AddToFlyingList(transfer: Transfer) returns (r: int, ghost k: nat)
      requires Valid() && transfer != head && transfer !in flying && NearlyNormal(transfer.deadline)
      modifies this`flying, this`queue, this`arrivals, head`prev, head`next, flying`prev, flying`next
      modifies transfer`prev, transfer`next
      ensures Valid()
      ensures arrivals == old(arrivals) + [Entry(transfer, transfer.deadline)]
      ensures queue == Insert(old(queue), Entry(transfer, transfer.deadline))
      ensures k <= |old(flying)| && flying == old(flying)[..k] + [transfer] + old(flying)[k..]
      ensures r == if IsSet(transfer.deadline) && flying[0] == transfer then 1 else 0
    {
      r, k := LinkByDeadline(transfer);
      Enqueued(transfer, k);
    }

    /** Bookkeeping for a transfer linked in at position k. */
    ghost method Enqueued(transfer: Transfer, k: nat)
      requires k <= |flying| && transfer !in flying && Linked(head, flying[..k] + [transfer] + flying[k..])
      requires Mirrors(queue, flying) && Distinct(arrivals) && queue == SortOf(arrivals)
      requires forall i :: 0 <= i < |flying| ==> NearlyNormal(flying[i].deadline)
      requires NearlyNormal(transfer.deadline)
      requires forall i :: 0 <= i < k ==> NotLater(flying[i].deadline, transfer.deadline)
      requires k < |flying| ==> !NotLater(flying[k].deadline, transfer.deadline)
      modifies this`flying, this`queue, this`arrivals
      ensures Valid() && flying == old(flying)[..k] + [transfer] + old(flying)[k..]
      ensures arrivals == old(arrivals) + [Entry(transfer, transfer.deadline)]
      ensures queue == Insert(old(queue), Entry(transfer, transfer.deadline))
    {
      InsertAt(queue, Entry(transfer, transfer.deadline), k);
      Arrives(flying, transfer, queue, arrivals);
      Spliced(queue, flying, transfer, k);
      queue := Insert(queue, Entry(transfer, transfer.deadline));
      flying := flying[..k] + [transfer] + flying[k..];
      arrivals := arrivals + [Entry(transfer, transfer.deadline)];
    }

    /** Take a transfer out of the list, wherever it is. */
    method Unlink(transfer: Transfer, ghost k: nat)
      requires Valid() && k < |flying| && flying[k] == transfer
      modifies this`flying, this`queue, this`arrivals, head`prev, head`next, flying`prev, flying`next
      ensures Valid()
      ensures arrivals == Remove(old(arrivals), transfer) && queue == Remove(old(queue), transfer)
      ensures flying == old(flying)[..k] + old(flying)[k + 1..]
    {
      ListDel(transfer, head, flying, k);
      Departs(queue, arrivals, k);
      Cut(queue, flying, k);
      flying := flying[..k] + flying[k + 1..];
      queue := Remove(queue, transfer);
      arrivals := Remove(arrivals, transfer);
    }

    // ----- submission and completion

    /** calculate_timeout; a clock that cannot be read leaves the deadline alone. */
    method CalculateTimeout(transfer: Transfer, clock: Option<Timespec>) returns (ok: bool)
      requires clock.Some? ==> Clock(clock.value)
      requires NearlyNormal(transfer.deadline)
      modifies transfer`deadline
      ensures ok <==> transfer.timeout == 0 || clock.Some?
      ensures transfer.deadline == if clock.Some? then Deadline(old(transfer.deadline), transfer.timeout, clock.value)
                                   else old(transfer.deadline)
      ensures NearlyNormal(transfer.deadline)
    {
      if transfer.timeout == 0 {
        return true;
      }
      if clock.None? {
        return false;
      }
      DeadlineIsTimeoutAfterNow(transfer.deadline, transfer.timeout, clock.value);
      transfer.deadline := Deadline(transfer.deadline, transfer.timeout, clock.value);
      ok := true;
    }

    /** libusb_submit_transfer with the clock reading (None: it fails), the
        backend's answer and whether the backend times the transfer itself. */
    method SubmitTransfer(transfer: Transfer, clock: Option<Timespec>, answer: int, osHandles: bool)
        returns (r: int, ghost k: nat)
      requires Valid() && transfer != head && transfer !in flying && NearlyNormal(transfer.deadline)
      requires clock.Some? ==> Clock(clock.value)
      modifies this`flying, this`queue, this`arrivals, head`prev, head`next, flying`prev, flying`next
      modifies transfer`prev, transfer`next, transfer`transferred, transfer`flags, transfer`deadline
      ensures Valid()
      ensures r == if transfer.timeout > 0 && clock.None? then -99 else answer
      ensures transfer.transferred == 0 && NearlyNormal(transfer.deadline)
      ensures transfer.deadline == if clock.Some? then Deadline(old(transfer.deadline), transfer.timeout, clock.value)
                                   else old(transfer.deadline)
      ensures r != 0 ==> flying == old(flying) && arrivals == old(arrivals)
      ensures transfer.flags == Flags(false, r == 0 && osHandles, false, false)
      ensures r == 0 ==> arrivals == old(arrivals) + [Entry(transfer, transfer.deadline)]
      ensures r == 0 ==> k <= |old(flying)| && flying == old(flying)[..k] + [transfer] + old(flying)[k..]
    {
      hide Linked, Mirrors, SortOf, Distinct;
      transfer.transferred := 0;
      transfer.flags := NO_FLAGS;
      k := 0;
      var ok := CalculateTimeout(transfer, clock);
      if !ok {
        return ERROR_OTHER, 0;
      }
      r, k := LinkAndSubmit(transfer, answer);
      if r == 0 {
        transfer.flags := transfer.flags.(osHandles := osHandles);
      }
    }

    /** Link the transfer in, hand it to the backend, take it out again when the
        backend refuses. */
    method LinkAndSubmit(transfer: Transfer, answer: int) returns (r: int, ghost k: nat)
      requires Valid() && transfer != head && transfer !in flying && NearlyNormal(transfer.deadline)
      modifies this`flying, this`queue, this`arrivals, head`prev, head`next, flying`prev, flying`next
      modifies transfer`prev, transfer`next
      ensures Valid() && r == answer
      ensures r != 0 ==> flying == old(flying) && arrivals == old(arrivals)
      ensures r == 0 ==> arrivals == old(arrivals) + [Entry(transfer, transfer.deadline)]
      ensures r == 0 ==> k <= |old(flying)| && flying == old(flying)[..k] + [transfer] + old(flying)[k..]
    {
      var first;
      first, k := AddToFlyingList(transfer);
      r := answer;
      if r != 0 {
        Unlink(transfer, k);
        UndoSplice(old(flying), transfer, k);
        UndoArrival(old(arrivals), Entry(transfer, transfer.deadline));
      }
    }

    /** libusb_submit_transfer on a transfer that is in flight, which the backend refuses.
        Unless the clock fails its deadline changes where it stands, it is linked in once
        more and deleted once, and what is left is no circular list of anything. */
    method Resubmit(transfer: Transfer, clock: Option<Timespec>, ghost j: nat) returns (r: int, ghost k: nat)
      requires Valid() && j < |flying| && flying[j] == transfer
      requires clock.Some? ==> Clock(clock.value)
      modifies head`prev, head`next, flying`prev, flying`next
      modifies transfer`transferred, transfer`flags, transfer`deadline
      ensures r == if transfer.timeout > 0 && clock.None? then -99 else -6
      ensures transfer.transferred == 0 && transfer.flags == Flags(false, false, false, false)
      ensures r != ERROR_BUSY ==> Valid()
      ensures r == ERROR_BUSY ==> k <= |flying| && k != j && Derailed(head, flying, j, k)
      ensures (exists t :: Linked(head, t)) <==> transfer.timeout > 0 && clock.None?
    {
      hide Linked, Mirrors, SortOf, Distinct, Derailed;
      transfer.transferred := 0;
      transfer.flags := NO_FLAGS;
      k := 0;
      var ok := CalculateTimeout(transfer, clock);
      if !ok {
        return ERROR_OTHER, 0;
      }
      k := RelinkByDeadline(transfer, j);
      r := ERROR_BUSY;
    }

    /** add_to_flying_list and list_del on a transfer in the list: the search does not
        stop at the transfer itself. */
    method RelinkByDeadline(transfer: Transfer, ghost j: nat) returns (ghost k: nat)
      requires Linked(head, flying) && j < |flying| && flying[j] == transfer
      modifies head`prev, head`next, flying`prev, flying`next
      ensures k <= |flying| && k != j && Derailed(head, flying, j, k)
      ensures forall t :: !Linked(head, t)
    {
      hide Derailed;
      Head();
      assert head.next != head;
      var pos := head;
      k := |flying|;
      if IsSet(transfer.deadline) {
        var first;
        pos, first, k := FindLater(transfer.deadline);
        assert NotLater(flying[j].deadline, transfer.deadline);
      }
      LinkTwiceAndDelete(transfer, pos, head, flying, j, k);
    }

    /** usbi_handle_transfer_completion up to and including the callback.  A transfer that
        has completed is an error exactly if it may not be short and has not transferred its
        whole length, which for a control transfer is less by the 8 bytes of its setup. */
    method HandleTransferCompletion(transfer: Transfer, status: Status, ghost k: nat)
      requires Valid() && k < |flying| && flying[k] == transfer
      modifies this, head`prev, head`next, flying`prev, flying`next
      ensures Valid()
      ensures arrivals == Remove(old(arrivals), transfer)
      ensures flying == old(flying)[..k] + old(flying)[k + 1..]
      ensures |completions| == |old(completions)| + 1 && completions[..|old(completions)|] == old(completions)
      ensures var c := completions[|old(completions)|];
        && c.transfer == transfer && c.actualLength == transfer.transferred
        && (status != Completed ==> c.status == status)
        && (status == Completed ==> c.status == Error || c.status == Completed)
        && (status == Completed ==>
              (c.status == Error <==>
               transfer.shortNotOk &&
               transfer.transferred != (if transfer.control then transfer.length - 8 else transfer.length)))
    {
      Unlink(transfer, k);
      var reported := status;
      if status == Completed && transfer.shortNotOk {
        var rqlen := transfer.length;
        if transfer.control {
          rqlen := rqlen - CONTROL_SETUP_SIZE;
        }
        if rqlen != transfer.transferred {
          reported := Error;
        }
      }
      completions := completions + [Completion(transfer, reported, transfer.transferred)];
    }

    /** usbi_handle_transfer_cancellation: a cancellation that a timeout caused is
        reported as a timeout. */
    method HandleTransferCancellation(transfer: Transfer, ghost k: nat)
      requires Valid() && k < |flying| && flying[k] == transfer
      modifies this, head`prev, head`next, flying`prev, flying`next
      ensures Valid()
      ensures flying == old(flying)[..k] + old(flying)[k + 1..]
      ensures completions == old(completions) + [Completion(transfer,
                if transfer.flags.timedOut then TimedOut else Cancelled, transfer.transferred)]
    {
      if transfer.flags.timedOut {
        HandleTransferCompletion(transfer, TimedOut, k);
      } else {
        HandleTransferCompletion(transfer, Cancelled, k);
      }
    }

    // ----- timeouts

    method CancelTransfer(transfer: Transfer, answer: int) returns (r: int)
      modifies transfer`flags
      ensures r == answer && transfer.flags == CancelFlags(old(transfer.flags), answer)
    {
      r := answer;
      if r < 0 {
        if r == ERROR_NO_DEVICE {
          transfer.flags := transfer.flags.(disappeared := true);
        }
      }
      transfer.flags := transfer.flags.(cancelling := true);
    }

    method HandleTimeout(transfer: Transfer, answer: int)
      modifies transfer`flags
      ensures transfer.flags == TimeoutFlags(old(transfer.flags), answer)
    {
      transfer.flags := transfer.flags.(timedOut := true);
      var _ := CancelTransfer(transfer, answer);
    }

    /** The body of the scan; false ends it. */
    method HandleIfDue(cur: Transfer, now: Timeval, answer: int) returns (more: bool)
      modifies cur`flags
      ensures cur.flags == if Due(cur.deadline, old(cur.flags), now) then TimeoutFlags(old(cur.flags), answer)
                           else old(cur.flags)
      ensures !more ==> !IsSet(cur.deadline) || After(cur.deadline, now)
    {
      if !IsSet(cur.deadline) {
        return false;
      }
      if !(cur.flags.timedOut || cur.flags.osHandles) {
        if After(cur.deadline, now) {
          return false;
        }
        HandleTimeout(cur, answer);
      }
      more := true;
    }

    /** Past an entry without a deadline, or with one still to come, nothing is due. */
    lemma NothingDueFrom(k: nat, now: Timeval)
      requires Valid() && k < |flying|
      requires !IsSet(flying[k].deadline) || After(flying[k].deadline, now)
      ensures forall j :: k <= j < |flying| ==> !IsSet(flying[j].deadline) || After(flying[j].deadline, now)
    {
      Ordered();
    }

    /** The scan returns at the first entry without a deadline or with one still to
        come, and nevertheless marks exactly the transfers that are due: those with
        a finite deadline that has passed, not timed out before and not timed by
        the OS.  `cancel` is the backend's answer for each of them. */
    method HandleTimeoutsLocked(clock: Option<Timespec>, cancel: Transfer -> int) returns (r: int)
      requires Valid()
      modifies flying`flags
      ensures Valid()
      ensures r == if flying != [] && clock.None? then -1 else 0
      ensures r != 0 ==> forall x :: x in flying ==> x.flags == old(x.flags)
      ensures r == 0 && clock.Some? ==>
                forall i :: 0 <= i < |flying| ==>
                  flying[i].flags == if Due(flying[i].deadline, old(flying[i].flags), ToTimeval(clock.value))
                                     then TimeoutFlags(old(flying[i].flags), cancel(flying[i]))
                                     else old(flying[i].flags)
    {
      hide Mirrors, Distinct, SortOf;
      Head();
      if head.next == head {
        return 0;
      }
      if clock.None? {
        return -1;
      }
      var now := ToTimeval(clock.value);
      var cur := head.next;
      ghost var k := 0;
      while cur != head
        invariant 0 <= k <= |flying| && cur == Ring(head, flying)[k + 1]
        invariant Valid()
        invariant forall i :: 0 <= i < k ==>
                    flying[i].flags == if Due(flying[i].deadline, old(flying[i].flags), now)
                                       then TimeoutFlags(old(flying[i].flags), cancel(flying[i]))
                                       else old(flying[i].flags)
        invariant forall i :: k <= i < |flying| ==> flying[i].flags == old(flying[i].flags)
        decreases |flying| - k
      {
        Following(k);
        var more := HandleIfDue(cur, now, cancel(cur));
        if !more {
          NothingDueFrom(k, now);
          return 0;
        }
        cur := cur.next;
        k := k + 1;
      }
      r := 0;
    }

    /** libusb_get_next_timeout: 0 exactly when no transfer is pending; otherwise
        the time left for the earliest of all pending deadlines, although the scan
        stops at the first pending transfer it finds. */
    method GetNextTimeout(clock: Option<Timespec>) returns (r: int, left: Timeval, ghost k: nat)
      requires Valid()
      ensures r == 0 <==> forall i :: 0 <= i < |flying| ==> !Pending(flying[i].deadline, flying[i].flags)
      ensures r != 0 ==> r == if clock.Some? then 1 else ERROR_OTHER
      ensures r != 0 ==>
                && k < |flying| && Pending(flying[k].deadline, flying[k].flags)
                && forall j :: 0 <= j < |flying| && Pending(flying[j].deadline, flying[j].flags) ==>
                     NotLater(flying[k].deadline, flying[j].deadline)
      ensures r == 1 ==> left == TimeLeft(flying[k].deadline, ToTimeval(clock.value))
    {
      left := Timeval(0, 0);
      k := 0;
      Head();
      if head.next == head {
        return 0, left, 0;
      }
      var cur := head.next;
      var found := false;
      while cur != head
        invariant 0 <= k <= |flying| && cur == Ring(head, flying)[k + 1] && !found
        invariant forall i :: 0 <= i < k ==> !Pending(flying[i].deadline, flying[i].flags)
        decreases |flying| - k
      {
        Following(k);
        if !(cur.flags.timedOut || cur.flags.osHandles) {
          if IsSet(cur.deadline) {
            found := true;
            break;
          }
        }
        cur := cur.next;
        k := k + 1;
      }
      if !found {
        return 0, left, 0;
      }
      Ordered();
      if clock.None? {
        return ERROR_OTHER, left, k;
      }
      var now := ToTimeval(clock.value);
      if !After(cur.deadline, now) {
        left := Timeval(0, 0);
      } else {
        left := TimerSub(cur.deadline, now);
      }
      r := 1;
    }

    /** libusb_handle_events_timeout when no descriptor becomes ready: the poll sleeps its
        full timeout, and `wake` gives the clock after a sleep of so many milliseconds; it
        is read again too when a deadline has passed already.  It sleeps for the caller's
        timeout when nothing is pending, not at all when a deadline has passed, and else
        for the smaller of the timeout and the time left, rounded up.  If the earliest
        pending deadline comes no later than the caller's timeout, and the wait for it fits
        into an int, its transfer is timed out when the call returns. */
    method HandleEventsIdle(user: Timeval, before: Timespec, wake: int -> Timespec, cancel: Transfer -> int)
        returns (slept: int, ghost k: nat)
      requires Valid() && Normal(user) && Clock(before)
      requires forall ms :: ms >= 0 ==> Clock(wake(ms)) && Nanos(wake(ms)) >= Nanos(before) + ms * 1_000_000
      modifies flying`flags
      ensures Valid()
      ensures forall i :: 0 <= i < |flying| && Pending(flying[i].deadline, old(flying[i].flags)) ==>
                && k < |flying| && Pending(flying[k].deadline, old(flying[k].flags))
                && NotLater(flying[k].deadline, flying[i].deadline)
                && (WaitsFor(flying[k].deadline, ToTimeval(before), user) ==> flying[k].flags.timedOut)
                && (var due, now := Micros(flying[k].deadline), Micros(ToTimeval(before));
                    if due <= now then slept == 0 else RoundsUp(slept, Min(Micros(user), due - now)))
      ensures (forall i :: 0 <= i < |flying| ==> !Pending(flying[i].deadline, old(flying[i].flags))) ==>
                RoundsUp(slept, Micros(user))
    {
      hide Linked, Mirrors, Distinct, SortOf, PollMillis, TimeLeft, WaitsFor, RoundsUp, After;
      var r, left;
      r, left, k := GetNextTimeout(Some(before));
      var wait := PollTimeout(if r == 1 then Some(left) else None, user);
      slept := if wait.None? then 0 else PollMillis(wait.value);
      if r == 1 {
        SleepIs(flying[k].deadline, before, user);
        SleepEnds(flying[k].deadline, before, user, wake(slept));
      } else {
        PollMillisRoundsUp(user);
      }
      var _ := HandleTimeoutsLocked(Some(wake(slept)), cancel);
    }

    // ----- a device goes away

    /** The first transfer of a handle, or null. */
    method FirstOf(handle: nat, ghost mine: set<Transfer>) returns (found: Transfer?, ghost k: nat)
      requires Valid() && Marked(handle, mine)
      ensures found == null ==> forall i :: 0 <= i < |flying| ==> flying[i] !in mine
      ensures found != null ==> k < |flying| && flying[k] == found && found in mine
      ensures found != null ==> forall i :: 0 <= i < k ==> flying[i] !in mine
    {
      Head();
      var cur := head.next;
      k := 0;
      while cur != head
        invariant 0 <= k <= |flying| && cur == Ring(head, flying)[k + 1]
        invariant forall i :: 0 <= i < k ==> flying[i] !in mine
        decreases |flying| - k
      {
        Following(k);
        if cur.handle == Some(handle) {
          return cur, k;
        }
        cur := cur.next;
        k := k + 1;
      }
      found := null;
    }

    ghost predicate Marked(handle: nat, mine: set<Transfer>)
      reads this`flying, flying`handle
    {
      forall x :: x in flying ==> (x in mine <==> x.handle == Some(handle))
    }

    /** The transfers of a handle. */
    ghost function OfHandle(handle: nat): set<Transfer>
      reads this, flying
    {
      set x | x in flying && x.handle == Some(handle)
    }

    /** A callback that submits a transfer which is not in flight; the submission reads the
        clock, and may fail.  On the handle that has gone away the backend refuses it. */
    method CallbackSubmits(again: Transfer, handle: nat, ghost mine: set<Transfer>, ghost others: set<Transfer>)
        returns (ok: bool)
      requires Valid() && again in others && (again in mine ==> again.handle == Some(handle))
      requires again != head && again !in flying && NearlyNormal(again.deadline)
      modifies this`flying, this`queue, this`arrivals, head`prev, head`next, flying`prev, flying`next
      modifies again`prev, again`next, again`transferred, again`flags, again`deadline
      ensures Valid() && NearlyNormal(again.deadline) && (ok <==> again in flying)
      ensures again.handle == Some(handle) ==> !ok
      ensures Within(flying, mine) == Within(old(flying), mine)
      ensures Without(flying, others) == Without(old(flying), others)
      ensures forall x :: x in flying ==> x in old(flying) || x == again
    {
      hide Linked, Mirrors, SortOf, Distinct;
      ghost var g := flying;
      ghost var j;
      var r;
      var clock: Option<Timespec> :| clock.Some? ==> Clock(clock.value);
      var answer: int := *;
      if again.handle == Some(handle) && answer == 0 {
        answer := ERROR_NO_DEVICE;
      }
      var osHandles: bool := *;
      r, j := SubmitTransfer(again, clock, answer, osHandles);
      ok := r == 0;
      if ok {
        assert flying[j] == again;
        SublistSplice(g, again, j, mine);
        SublistSplice(g, again, j, others);
      }
    }

    /** One completion of the disconnect loop. */
    method CompleteVanished(cur: Transfer, ghost k: nat, ghost mine: set<Transfer>, ghost others: set<Transfer>)
      requires Valid() && k < |flying| && flying[k] == cur
      requires cur in mine && (forall i :: 0 <= i < k ==> flying[i] !in mine) && mine <= others
      modifies this, head`prev, head`next, flying`prev, flying`next
      ensures Valid()
      ensures [cur] + Within(flying, mine) == Within(old(flying), mine)
      ensures Without(flying, others) == Without(old(flying), others)
      ensures flying == old(flying)[..k] + old(flying)[k + 1..]
      ensures completions == old(completions) + [Completion(cur, NoDevice, cur.transferred)]
    {
      ghost var f := flying;
      HandleTransferCompletion(cur, NoDevice, k);
      assert f == flying[..k] + [cur] + flying[k..];
      SublistSplice(flying, cur, k, mine);
      SublistSplice(flying, cur, k, others);
    }

    /** What the transfers of a handle have transferred. */
    ghost function Sent(handle: nat): map<Transfer, int>
      reads this, flying
    {
      map x | x in OfHandle(handle) :: x.transferred
    }

    /** What callbacks may submit: nothing in flight. */
    ghost predicate MaySubmit(pool: set<Transfer>)
      reads this, pool
    {
      forall y :: y in pool ==> y != head && y !in flying && NearlyNormal(y.deadline)
    }

    /** The transfers of the handle: those in flight are `mine`, and all in `mine` are. */
    ghost predicate Owned(handle: nat, mine: set<Transfer>)
      reads this`flying, flying`handle, mine`handle
    {
      Marked(handle, mine) && forall x :: x in mine ==> x.handle == Some(handle)
    }

    /** A callback that makes any number of attempts to submit transfers of the pool; one
        that fails can be tried again. */
    method Callback(pool: set<Transfer>, handle: nat, ghost mine: set<Transfer>, ghost others: set<Transfer>)
        returns (left: set<Transfer>)
      requires Valid() && MaySubmit(pool) && Owned(handle, mine) && mine + pool <= others
      modifies this`flying, this`queue, this`arrivals, head`prev, head`next, flying`prev, flying`next
      modifies pool`prev, pool`next, pool`transferred, pool`flags, pool`deadline
      ensures Valid() && left <= pool && MaySubmit(left) && Owned(handle, mine)
      ensures Within(flying, mine) == Within(old(flying), mine)
      ensures Without(flying, others) == Without(old(flying), others)
      ensures forall x :: x in flying ==> x in old(flying) || (x in pool && x !in mine)
    {
      hide Within, Without, Linked, Mirrors, Sorted, Distinct, SortOf;
      left := pool;
      var attempts: nat := *;
      while attempts > 0 && left != {}
        invariant Valid() && left <= pool && MaySubmit(left) && Owned(handle, mine)
        invariant Within(flying, mine) == Within(old(flying), mine)
        invariant Without(flying, others) == Without(old(flying), others)
        invariant forall x :: x in flying ==> x in old(flying) || (x in pool && x !in mine)
        decreases attempts
      {
        var again :| again in left;
        var ok := CallbackSubmits(again, handle, mine, others);
        if ok {
          left := left - {again};
        }
        attempts := attempts - 1;
      }
    }

    /** One round of the disconnect loop: a completion with its callback, to which the
        completed transfer is there to submit again. */
    method Vanish(cur: Transfer, ghost k: nat, pool: set<Transfer>,
                  handle: nat, ghost mine: set<Transfer>, ghost others: set<Transfer>)
        returns (left: set<Transfer>)
      requires Valid() && k < |flying| && flying[k] == cur && MaySubmit(pool)
      requires cur in mine && (forall i :: 0 <= i < k ==> flying[i] !in mine)
      requires mine + pool <= others && Owned(handle, mine)
      modifies this, head`prev, head`next, flying`prev, flying`next
      modifies (pool + {cur})`prev, (pool + {cur})`next
      modifies (pool + {cur})`transferred, (pool + {cur})`flags, (pool + {cur})`deadline
      ensures Valid() && left <= pool + {cur} && MaySubmit(left) && Owned(handle, mine)
      ensures [cur] + Within(flying, mine) == Within(old(flying), mine)
      ensures Without(flying, others) == Without(old(flying), others)
      ensures cur !in flying
      ensures forall x :: x in flying ==> x in old(flying) || (x in pool && x !in mine)
      ensures completions == old(completions) + [Completion(cur, NoDevice, old(cur.transferred))]
    {
      hide Within, Without, Linked, Mirrors, Sorted, Distinct, SortOf;
      OnlyOnce(k);
      CompleteVanished(cur, k, mine, others);
      left := Callback(pool + {cur}, handle, mine, others);
    }

    /** A transfer is linked in once. */
    lemma OnlyOnce(k: nat)
      requires Valid() && k < |flying|
      ensures flying[k] !in flying[..k] + flying[k + 1..] && flying[k] != head && NearlyNormal(flying[k].deadline)
    {
      Following(k);
    }

    /** The body of the disconnect loop: a completion with its callback, and the
        search for the next transfer of the handle. */
    method VanishNext(cur: Transfer, ghost k: nat, pool: set<Transfer>, handle: nat,
                      ghost mine: set<Transfer>, ghost others: set<Transfer>, ghost sent: map<Transfer, int>)
        returns (left: set<Transfer>, found: Transfer?, ghost k': nat)
      requires Valid() && k < |flying| && flying[k] == cur && MaySubmit(pool)
      requires cur in mine && (forall i :: 0 <= i < k ==> flying[i] !in mine)
      requires mine + pool <= others && Owned(handle, mine) && Counted(mine, sent)
      modifies this, head`prev, head`next, flying`prev, flying`next
      modifies (pool + {cur})`prev, (pool + {cur})`next
      modifies (pool + {cur})`transferred, (pool + {cur})`flags, (pool + {cur})`deadline
      ensures Valid() && left <= pool + {cur} && MaySubmit(left) && Owned(handle, mine) && Counted(mine, sent)
      ensures completions + Reports(Within(flying, mine), sent)
           == old(completions) + Reports(Within(old(flying), mine), sent)
      ensures |Within(flying, mine)| < |Within(old(flying), mine)|
      ensures Without(flying, others) == Without(old(flying), others)
      ensures forall x :: x in flying ==> x in old(flying) || (x in pool && x !in mine)
      ensures found == null ==> forall i :: 0 <= i < |flying| ==> flying[i] !in mine
      ensures found != null ==> k' < |flying| && flying[k'] == found && found in mine
      ensures found != null ==> forall i :: 0 <= i < k' ==> flying[i] !in mine
    {
      hide Within, Without, Linked, Mirrors, Distinct, SortOf;
      left := Vanish(cur, k, pool, handle, mine, others);
      ghost var before := Within(old(flying), mine);
      assert before[0] == cur && before[1..] == Within(flying, mine);
      ReportsStep(old(completions), before, sent);
      found, k' := FirstOf(handle, mine);
    }

    /** What the transfers of the handle that are still in flight have transferred. */
    ghost predicate Counted(mine: set<Transfer>, sent: map<Transfer, int>)
      reads this`flying, flying`transferred
    {
      forall x :: x in flying && x in mine ==> x in sent && x.transferred == sent[x]
    }

    /** The loop of usbi_handle_disconnect; mine are the transfers of the handle. */
    method CompleteAll(handle: nat, pool: set<Transfer>,
                       ghost mine: set<Transfer>, ghost others: set<Transfer>, ghost sent: map<Transfer, int>)
      requires Valid() && MaySubmit(pool) && Owned(handle, mine) && Counted(mine, sent)
      requires others == mine + pool
      modifies this, head`prev, head`next, flying`prev, flying`next
      modifies others`prev, others`next, others`transferred, others`flags, others`deadline
      ensures Valid() && Owned(handle, mine)
      ensures completions == old(completions) + Reports(Within(old(flying), mine), sent)
      ensures forall x :: x in flying ==> x !in mine && (x in old(flying) || x in pool)
      ensures Without(flying, others) == Without(old(flying), others)
    {
      hide Within, Without, Linked, Mirrors, Distinct, SortOf;
      var left := pool;
      var cur: Transfer?;
      ghost var k: nat;
      cur, k := FirstOf(handle, mine);
      while cur != null
        invariant Valid() && left <= others && MaySubmit(left) && Owned(handle, mine) && Counted(mine, sent)
        invariant completions + Reports(Within(flying, mine), sent)
               == old(completions) + Reports(Within(old(flying), mine), sent)
        invariant cur == null ==> forall i :: 0 <= i < |flying| ==> flying[i] !in mine
        invariant cur != null ==> k < |flying| && flying[k] == cur && cur in mine
        invariant cur != null ==> forall i :: 0 <= i < k ==> flying[i] !in mine
        invariant forall x :: x in flying ==> x in old(flying) || x in pool
        invariant Without(flying, others) == Without(old(flying), others)
        decreases |Within(flying, mine)|
      {
        left, cur, k := VanishNext(cur, k, left, handle, mine, others, sent);
      }
      WithinNone(flying, mine);
    }

    /** usbi_handle_disconnect.  The callbacks may submit transfers of the pool and those
        that have been completed; on the handle every submission fails.  The loop ends;
        every transfer of the handle is completed once, in list order, with NO_DEVICE, and
        the others keep their order. */
    method HandleDisconnect(handle: nat, pool: set<Transfer>) returns (ghost others: set<Transfer>)
      requires Valid() && MaySubmit(pool)
      modifies this, head`prev, head`next, flying`prev, flying`next
      modifies (pool + OfHandle(handle))`prev, (pool + OfHandle(handle))`next
      modifies (pool + OfHandle(handle))`transferred, (pool + OfHandle(handle))`flags
      modifies (pool + OfHandle(handle))`deadline
      ensures Valid()
      ensures completions == old(completions) + Reports(Within(old(flying), old(OfHandle(handle))), old(Sent(handle)))
      ensures forall x :: x in flying ==> x.handle != Some(handle) && (x in old(flying) || x in pool)
      ensures others == old(OfHandle(handle)) + pool
      ensures Without(flying, others) == Without(old(flying), others)
    {
      ghost var mine := OfHandle(handle);
      others := mine + pool;
      CompleteAll(handle, pool, mine, others, Sent(handle));
    }

    /** The body of the walk of do_close.  The next transfer is read before `cur` may
        be unlinked.  All that are linked are among `nodes`. */
    method CloseOne(handle: nat, cur: Transfer, ghost k: nat, ghost nodes: set<Transfer>) returns (tmp: Transfer)
      requires Valid() && k < |flying| && flying[k] == cur && cur in nodes
      requires forall j :: 0 <= j < |flying| ==> flying[j] in nodes
      modifies this`flying, this`queue, this`arrivals, head`prev, head`next, nodes`prev, nodes`next
      modifies (if cur.handle == Some(handle) then {cur} else {})`handle
      ensures Valid() && tmp == Ring(head, old(flying))[k + 2]
      ensures flying == if old(cur.handle) == Some(handle) then old(flying)[..k] + old(flying)[k + 1..] else old(flying)
      ensures cur.handle == if old(cur.handle) == Some(handle) then None else old(cur.handle)
    {
      Following(k);
      tmp := cur.next;
      if cur.handle == Some(handle) {
        Unlink(cur, k);
        cur.handle := None;
      }
    }

    /** Where the walk of do_close stands: it has kept some transfers, has some still
        to visit, and those of the handle that are not among these are cleared. */
    ghost predicate Walking(handle: nat, mine: set<Transfer>, nodes: set<Transfer>,
                            kept: seq<Transfer>, rest: seq<Transfer>)
      reads this, nodes`handle, mine`handle
    {
      && flying == kept + rest
      && (forall j :: 0 <= j < |flying| ==> flying[j] in nodes)
      && (forall j :: 0 <= j < |rest| ==>
            rest[j] in nodes && (rest[j] in mine <==> rest[j].handle == Some(handle)))
      && (forall x :: x in mine ==> x in rest || x.handle == None)
    }

    /** The body of the walk of do_close.  The next transfer is read before `cur` may
        be unlinked. */
    method CloseNext(handle: nat, cur: Transfer, ghost mine: set<Transfer>, ghost nodes: set<Transfer>,
                     ghost kept: seq<Transfer>, ghost rest: seq<Transfer>)
        returns (tmp: Transfer, ghost kept': seq<Transfer>)
      requires Valid() && rest != [] && cur == rest[0] && Walking(handle, mine, nodes, kept, rest)
      modifies this`flying, this`queue, this`arrivals, head`prev, head`next, nodes`prev, nodes`next, mine`handle
      ensures Valid() && Walking(handle, mine, nodes, kept', rest[1..])
      ensures tmp == if |rest| == 1 then head else rest[1]
      ensures kept' == if cur in mine then kept else kept + [cur]
    {
      hide Mirrors, Distinct, SortOf;
      KeepStep(head, kept, rest);
      tmp := CloseOne(handle, cur, |kept|, nodes);
      kept' := if cur in mine then kept else kept + [cur];
    }

    /** The same, for the list as a whole. */
    method CloseStep(handle: nat, cur: Transfer, ghost mine: set<Transfer>, ghost nodes: set<Transfer>,
                     ghost kept: seq<Transfer>, ghost rest: seq<Transfer>)
        returns (tmp: Transfer, ghost kept': seq<Transfer>)
      requires Valid() && rest != [] && cur == rest[0] && Walking(handle, mine, nodes, kept, rest)
      modifies this`flying, this`queue, this`arrivals, head`prev, head`next, nodes`prev, nodes`next, mine`handle
      ensures Valid() && Walking(handle, mine, nodes, kept', rest[1..])
      ensures tmp == if |rest| == 1 then head else rest[1]
      ensures kept' + Without(rest[1..], mine) == kept + Without(rest, mine)
    {
      tmp, kept' := CloseNext(handle, cur, mine, nodes, kept, rest);
      WithoutHead(kept, rest, mine);
    }

    /** The list walk of do_close: unlink every transfer of the handle and clear its
        handle. */
    method RemoveClosed(handle: nat, ghost mine: set<Transfer>, ghost nodes: set<Transfer>)
      requires Valid() && Walking(handle, mine, nodes, [], flying)
      modifies this`flying, this`queue, this`arrivals, head`prev, head`next, nodes`prev, nodes`next, mine`handle
      ensures Valid()
      ensures flying == Without(old(flying), mine)
      ensures forall x :: x in mine ==> x.handle == None
    {
      ghost var kept, rest: seq<Transfer> := [], flying;
      Head();
      var cur := head.next;
      while cur != head
        invariant Walking(handle, mine, nodes, kept, rest)
        invariant kept + Without(rest, mine) == Without(old(flying), mine)
        invariant cur == if rest == [] then head else rest[0]
        invariant Valid()
        decreases |rest|
      {
        cur, kept := CloseStep(handle, cur, mine, nodes, kept, rest);
        rest := rest[1..];
      }
    }

    /** The transfers of a closed handle leave the list and lose their handle; the
        others stay in order and keep theirs. */
    method DoClose(handle: nat)
      requires Valid()
      modifies this`flying, this`queue, this`arrivals, head`prev, head`next, flying`prev, flying`next, flying`handle
      ensures Valid()
      ensures flying == Without(old(flying), old(OfHandle(handle)))
      ensures forall i :: 0 <= i < |old(flying)| ==>
                old(flying)[i].handle == if old(flying[i].handle) == Some(handle) then None
                                         else old(flying[i].handle)
      ensures forall i :: 0 <= i < |flying| ==> flying[i].handle != Some(handle)
    {
      ghost var s := flying;
      ghost var mine := OfHandle(handle);
      RemoveClosed(handle, mine, set x | x in flying);
      WithoutMembers(s, mine);
      forall i | 0 <= i < |flying|
        ensures flying[i].handle != Some(handle)
      {
        assert flying[i] in s && flying[i] !in mine;
      }
    }
  }

  lemma KeepStep(head: Transfer, kept: seq<Transfer>, rest: seq<Transfer>)
    requires rest != []
    ensures (kept + rest)[|kept|] == rest[0]
    ensures Ring(head, kept + rest)[|kept| + 2] == if |rest| == 1 then head else rest[1]
    ensures (kept + rest)[..|kept|] + (kept + rest)[|kept| + 1..] == kept + rest[1..]
    ensures kept + rest == (kept + [rest[0]]) + rest[1..]
    ensures forall x :: x in rest ==> x == rest[0] || x in rest[1..]
  {
  }

  lemma WithoutHead(kept: seq<Transfer>, rest: seq<Transfer>, m: set<Transfer>)
    requires rest != []
    ensures (if rest[0] in m then kept else kept + [rest[0]]) + Without(rest[1..], m) == kept + Without(rest, m)
  {
    if rest[0] in m {
      assert Without(rest, m) == Without(rest[1..], m);
    } else {
      assert kept + ([rest[0]] + Without(rest[1..], m)) == (kept + [rest[0]]) + Without(rest[1..], m);
    }
  }

  lemma {:induction false} WithoutMembers<T>(s: seq<T>, m: set<T>)
    ensures forall x :: x in Without(s, m) ==> x in s && x !in m
  {
    if s != [] { WithoutMembers(s[1..], m); }
  }

  /** The NO_DEVICE completions of some transfers, in order. */
  ghost function Reports(s: seq<Transfer>, sent: map<Transfer, int>): seq<Completion> {
    if s == [] then []
    else [Completion(s[0], NoDevice, if s[0] in sent then sent[s[0]] else 0)] + Reports(s[1..], sent)
  }

  lemma ReportsStep(c: seq<Completion>, s: seq<Transfer>, sent: map<Transfer, int>)
    requires s != [] && s[0] in sent
    ensures (c + [Completion(s[0], NoDevice, sent[s[0]])]) + Reports(s[1..], sent) == c + Reports(s, sent)
  {
  }

  lemma UndoSplice(s: seq<Transfer>, transfer: Transfer, k: nat)
    requires k <= |s|
    ensures var longer := s[..k] + [transfer] + s[k..];
      longer[..k] + longer[k + 1..] == s
  {
  }

  lemma UndoArrival(a: seq<Entry<Transfer>>, x: Entry<Transfer>)
    requires Distinct(a + [x])
    ensures Remove(a + [x], x.id) == a
  {
    var longer := a + [x];
    forall i | 0 <= i < |a|
      ensures a[i].id != x.id
    {
      assert longer[i].id != longer[|a|].id;
    }
    RemoveSnoc(a, x, x.id);
  }

  lemma Cut(q: seq<Entry<Transfer>>, s: seq<Transfer>, k: nat)
    requires k < |s| && Mirrors(q, s)
    requires forall i :: 0 <= i < |s| ==> NearlyNormal(s[i].deadline)
    ensures Mirrors(q[..k] + q[k + 1..], s[..k] + s[k + 1..])
    ensures var s' := s[..k] + s[k + 1..];
      forall i :: 0 <= i < |s'| ==> NearlyNormal(s'[i].deadline)
  {
  }

  lemma Spliced(q: seq<Entry<Transfer>>, s: seq<Transfer>, transfer: Transfer, k: nat)
    requires k <= |s| && Mirrors(q, s) && NearlyNormal(transfer.deadline)
    requires forall i :: 0 <= i < |s| ==> NearlyNormal(s[i].deadline)
    ensures Mirrors(q[..k] + [Entry(transfer, transfer.deadline)] + q[k..], s[..k] + [transfer] + s[k..])
    ensures var s' := s[..k] + [transfer] + s[k..];
      forall i :: 0 <= i < |s'| ==> NearlyNormal(s'[i].deadline)
  {
  }

  lemma Arrives(s: seq<Transfer>, transfer: Transfer, q: seq<Entry<Transfer>>, arrivals: seq<Entry<Transfer>>)
    requires transfer !in s && Mirrors(q, s) && Distinct(arrivals) && q == SortOf(arrivals)
    ensures var x := Entry(transfer, transfer.deadline);
      SortOf(arrivals + [x]) == Insert(q, x) && Distinct(arrivals + [x])
  {
    var longer := arrivals + [Entry(transfer, transfer.deadline)];
    assert longer[..|longer| - 1] == arrivals;
    HoldsSorted(arrivals, transfer);
    assert forall i :: 0 <= i < |arrivals| ==> arrivals[i].id != transfer;
  }

  function Slept(deadline: Timeval, now: Timeval, user: Timeval): int {
    var wait := PollTimeout(Some(TimeLeft(deadline, now)), user);
    if wait.None? then 0 else PollMillis(wait.value)
  }

  /** How long the poll for a pending deadline sleeps. */
  lemma SleepIs(deadline: Timeval, before: Timespec, user: Timeval)
    requires NearlyNormal(deadline) && Clock(before) && Normal(user)
    ensures var now := ToTimeval(before);
      var slept, left := Slept(deadline, now, user), Micros(deadline) - Micros(now);
      if left <= 0 then slept == 0 else RoundsUp(slept, Min(Micros(user), left))
  {
    hide PollTimeout, PollMillis, RoundsUp;
    var now := ToTimeval(before);
    ToTimevalMonotone(before, before);
    PollTimeoutIsMin(deadline, now, user);
    var wait := PollTimeout(Some(TimeLeft(deadline, now)), user);
    if wait.Some? { PollMillisRoundsUp(wait.value); }
  }

  /** After it the deadline has passed, if it was to come first. */
  lemma SleepEnds(deadline: Timeval, before: Timespec, user: Timeval, after: Timespec)
    requires NearlyNormal(deadline) && Clock(before) && Normal(user)
    requires var slept := Slept(deadline, ToTimeval(before), user);
      slept >= 0 ==> Clock(after) && Nanos(after) >= Nanos(before) + slept * 1_000_000
    ensures WaitsFor(deadline, ToTimeval(before), user) ==> !After(deadline, ToTimeval(after))
  {
    hide PollTimeout, PollMillis;
    var now := ToTimeval(before);
    var wait := PollTimeout(Some(TimeLeft(deadline, now)), user);
    ToTimevalMonotone(before, before);
    PollTimeoutIsMin(deadline, now, user);
    if wait.None? {
      ToTimevalMonotone(before, after);
      OrderRespectsTime(deadline, ToTimeval(after));
    } else if WaitsFor(deadline, now, user) {
      TimeLeftExact(deadline, now);
      MillisMonotone(wait.value, TimeLeft(deadline, now));
      PollMillisRoundsUpExactly(wait.value);
      FullPollReachesDeadline(deadline, before, user, after);
    }
  }

  lemma Departs(q: seq<Entry<Transfer>>, arrivals: seq<Entry<Transfer>>, k: nat)
    requires k < |q| && Distinct(q) && Distinct(arrivals) && q == SortOf(arrivals)
    ensures var less := Remove(arrivals, q[k].id);
      SortOf(less) == q[..k] + q[k + 1..] == Remove(q, q[k].id) && Distinct(less)
  {
    hide SortOf, Remove;
    RemoveAt(q, k);
    SortOfRemove(arrivals, q[k].id);
    HoldsSorted(arrivals, q[k].id);
    var i :| 0 <= i < |arrivals| && arrivals[i].id == q[k].id;
    RemoveAt(arrivals, i);
  }
}
