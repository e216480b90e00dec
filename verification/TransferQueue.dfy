/** The queue of in-flight transfers as a value: entries ordered by stored
    deadline, entries without one last, ties in order of arrival. */
module TransferQueue {
  import opened Deadlines

  datatype Entry<T> = Entry(id: T, deadline: Timeval)

  ghost predicate Sorted<T>(q: seq<Entry<T>>) {
    forall i, j :: 0 <= i < j < |q| ==> NotLater(q[i].deadline, q[j].deadline)
  }

  ghost predicate Distinct<T>(q: seq<Entry<T>>) {
    forall i, j :: 0 <= i < j < |q| ==> q[i].id != q[j].id
  }

  ghost predicate Holds<T>(q: seq<Entry<T>>, id: T) {
    exists i :: 0 <= i < |q| && q[i].id == id
  }

  /** Put x in front of the first entry that is later than x. */
  ghost function Insert<T>(q: seq<Entry<T>>, x: Entry<T>): seq<Entry<T>> {
    if q == [] then [x]
    else if !NotLater(q[0].deadline, x.deadline) then [x] + q
    else [q[0]] + Insert(q[1..], x)
  }

  ghost function Remove<T>(q: seq<Entry<T>>, id: T): seq<Entry<T>> {
    if q == [] then []
    else if q[0].id == id then q[1..]
    else [q[0]] + Remove(q[1..], id)
  }

  /** The queue that submissions in the order `arrivals` build up. */
  ghost function SortOf<T>(arrivals: seq<Entry<T>>): seq<Entry<T>> {
    if arrivals == [] then []
    else Insert(SortOf(arrivals[..|arrivals| - 1]), arrivals[|arrivals| - 1])
  }

  /** The entries with one deadline, in order. */
  ghost function Matching<T>(q: seq<Entry<T>>, d: Timeval): seq<Entry<T>> {
    if q == [] then []
    else (if q[0].deadline == d then [q[0]] else []) + Matching(q[1..], d)
  }

  lemma {:induction false} InsertAt<T>(q: seq<Entry<T>>, x: Entry<T>, k: nat)
    requires k <= |q|
    requires forall i :: 0 <= i < k ==> NotLater(q[i].deadline, x.deadline)
    requires k < |q| ==> !NotLater(q[k].deadline, x.deadline)
    ensures Insert(q, x) == q[..k] + [x] + q[k..]
  {
    if k > 0 {
      InsertAt(q[1..], x, k - 1);
      assert q[..k] == [q[0]] + q[1..][..k - 1];
      assert q[1..][k - 1..] == q[k..];
    }
  }

  lemma {:induction false} RemoveAt<T>(q: seq<Entry<T>>, k: nat)
    requires k < |q|
    requires forall i :: 0 <= i < k ==> q[i].id != q[k].id
    ensures Remove(q, q[k].id) == q[..k] + q[k + 1..]
  {
    if k > 0 {
      var rest := q[1..];
      assert rest[k - 1] == q[k];
      RemoveAt(rest, k - 1);
      assert q[..k] + q[k + 1..] == [q[0]] + (rest[..k - 1] + rest[k..]);
    }
  }

  lemma {:induction false} InsertMembers<T>(q: seq<Entry<T>>, x: Entry<T>)
    ensures forall y :: y in Insert(q, x) <==> y == x || y in q
    ensures forall j :: 0 <= j < |Insert(q, x)| ==> Insert(q, x)[j] == x || Insert(q, x)[j] in q
  {
    if q != [] && NotLater(q[0].deadline, x.deadline) {
      InsertMembers(q[1..], x);
      assert q == [q[0]] + q[1..];
    }
  }

  lemma {:induction false} InsertKeeps<T>(q: seq<Entry<T>>, x: Entry<T>)
    requires Sorted(q)
    ensures Sorted(Insert(q, x))
  {
    if q != [] && NotLater(q[0].deadline, x.deadline) {
      InsertKeeps(q[1..], x);
      InsertMembers(q[1..], x);
      var rest := Insert(q[1..], x);
      forall j | 0 <= j < |rest|
        ensures NotLater(q[0].deadline, rest[j].deadline)
      {
        assert rest[j] == x || rest[j] in q[1..];
      }
    }
  }

  /** Sorted in every reachable state, with the entries that arrived and no others. */
  lemma {:induction false} SortOfSorted<T>(arrivals: seq<Entry<T>>)
    ensures Sorted(SortOf(arrivals))
    ensures forall y :: y in SortOf(arrivals) <==> y in arrivals
  {
    if arrivals != [] {
      var n := |arrivals| - 1;
      SortOfSorted(arrivals[..n]);
      InsertKeeps(SortOf(arrivals[..n]), arrivals[n]);
      InsertMembers(SortOf(arrivals[..n]), arrivals[n]);
      assert arrivals == arrivals[..n] + [arrivals[n]];
    }
  }

  lemma {:induction false} MatchingLater<T>(q: seq<Entry<T>>, d: Timeval)
    requires forall i :: 0 <= i < |q| ==> !NotLater(q[i].deadline, d)
    ensures Matching(q, d) == []
  {
    if q != [] { MatchingLater(q[1..], d); }
  }

  lemma {:induction false} MatchingInsert<T>(q: seq<Entry<T>>, x: Entry<T>, d: Timeval)
    requires Sorted(q)
    ensures Matching(Insert(q, x), d) == Matching(q, d) + (if x.deadline == d then [x] else [])
  {
    if q == [] {
    } else if !NotLater(q[0].deadline, x.deadline) {
      assert ([x] + q)[1..] == q;
      if x.deadline == d { MatchingLater(q, d); }
    } else {
      var rest := Insert(q[1..], x);
      assert ([q[0]] + rest)[1..] == rest;
      MatchingInsert(q[1..], x, d);
    }
  }

  lemma {:induction false} MatchingSnoc<T>(q: seq<Entry<T>>, x: Entry<T>, d: Timeval)
    ensures Matching(q + [x], d) == Matching(q, d) + (if x.deadline == d then [x] else [])
  {
    if q == [] {
      assert q + [x] == [x];
    } else {
      assert (q + [x])[1..] == q[1..] + [x];
      MatchingSnoc(q[1..], x, d);
    }
  }

  /** Ties stay in order of arrival: the entries of any one deadline appear in the
      queue exactly as they arrived. */
  lemma {:induction false} SortOfStable<T>(arrivals: seq<Entry<T>>, d: Timeval)
    ensures Matching(SortOf(arrivals), d) == Matching(arrivals, d)
  {
    if arrivals != [] {
      var n := |arrivals| - 1;
      SortOfStable(arrivals[..n], d);
      SortOfSorted(arrivals[..n]);
      MatchingInsert(SortOf(arrivals[..n]), arrivals[n], d);
      MatchingSnoc(arrivals[..n], arrivals[n], d);
      assert arrivals == arrivals[..n] + [arrivals[n]];
    }
  }

  lemma HoldsTail<T>(q: seq<Entry<T>>, id: T)
    requires q != []
    ensures Holds(q[1..], id) ==> Holds(q, id)
  {
    if i :| 0 <= i < |q[1..]| && q[1..][i].id == id { assert q[i + 1].id == id; }
  }

  lemma {:induction false} RemoveAbsent<T>(q: seq<Entry<T>>, id: T)
    requires !Holds(q, id)
    ensures Remove(q, id) == q
  {
    if q != [] {
      assert q[0].id != id;
      HoldsTail(q, id);
      RemoveAbsent(q[1..], id);
    }
  }

  lemma {:induction false} RemoveInsert<T>(q: seq<Entry<T>>, x: Entry<T>, id: T)
    requires Sorted(q) && !Holds(q, x.id)
    ensures Remove(Insert(q, x), id) == if id == x.id then q else Insert(Remove(q, id), x)
  {
    if q == [] {
    } else if !NotLater(q[0].deadline, x.deadline) {
      assert ([x] + q)[1..] == q;
      if id != x.id { InsertIntoLater(q, x, id); }
    } else {
      var rest := Insert(q[1..], x);
      assert ([q[0]] + rest)[1..] == rest;
      HoldsTail(q, x.id);
      assert q[0].id != x.id;
      RemoveInsert(q[1..], x, id);
      if q[0].id == id {
        assert Remove(q, id) == q[1..];
      } else {
        assert Remove(q, id) == [q[0]] + Remove(q[1..], id);
        assert ([q[0]] + Remove(q[1..], id))[1..] == Remove(q[1..], id);
      }
    }
  }

  /** Everything that is left of a queue later than x stays later than x. */
  lemma {:induction false} InsertIntoLater<T>(q: seq<Entry<T>>, x: Entry<T>, id: T)
    requires Sorted(q) && q != [] && !NotLater(q[0].deadline, x.deadline)
    ensures Insert(Remove(q, id), x) == [x] + Remove(q, id)
  {
    if q[0].id == id && |q| > 1 {
      assert NotLater(q[0].deadline, q[1].deadline);
    }
  }

  lemma {:induction false} RemoveSnoc<T>(q: seq<Entry<T>>, x: Entry<T>, id: T)
    requires !(Holds(q, id) && id == x.id)
    ensures Remove(q + [x], id) == if id == x.id then q else Remove(q, id) + [x]
  {
    if q == [] {
      assert q + [x] == [x];
    } else {
      assert (q + [x])[1..] == q[1..] + [x];
      assert q[0].id == id ==> Holds(q, id);
      HoldsTail(q, id);
      RemoveSnoc(q[1..], x, id);
    }
  }

  lemma HoldsSorted<T>(arrivals: seq<Entry<T>>, id: T)
    ensures Holds(SortOf(arrivals), id) <==> Holds(arrivals, id)
  {
    SortOfSorted(arrivals);
    if i :| 0 <= i < |arrivals| && arrivals[i].id == id {
      assert arrivals[i] in SortOf(arrivals);
    }
    if i :| 0 <= i < |SortOf(arrivals)| && SortOf(arrivals)[i].id == id {
      assert SortOf(arrivals)[i] in arrivals;
    }
  }

  /** Completion in any order: taking an entry out of the queue leaves the queue
      that the remaining submissions alone would have built. */
  lemma {:induction false} SortOfRemove<T>(arrivals: seq<Entry<T>>, id: T)
    requires Distinct(arrivals)
    ensures Remove(SortOf(arrivals), id) == SortOf(Remove(arrivals, id))
  {
    if arrivals != [] {
      var n := |arrivals| - 1;
      var before := arrivals[..n];
      var x := arrivals[n];
      assert arrivals == before + [x];
      SortOfSorted(before);
      HoldsSorted(before, x.id);
      RemoveInsert(SortOf(before), x, id);
      RemoveSnoc(before, x, id);
      if id != x.id {
        SortOfRemove(before, id);
        var less := Remove(before, id) + [x];
        assert less[..|less| - 1] == Remove(before, id);
      }
    }
  }
}
