/** Frequency domains (cpufreq.cpp): which domains lie completely within a list of
    virtual cores. */
module Domains {
  /** A domain and the identifiers of its virtual cores. */
  datatype Domain = Domain(id: nat, cores: seq<nat>)

  ghost predicate Distinct(s: seq<nat>) {
    forall i, j :: 0 <= i < j < |s| ==> s[i] != s[j]
  }

  /** All cores of the domain are among some cores. */
  ghost predicate AllIn(d: Domain, cores: seq<nat>) {
    forall i :: 0 <= i < |d.cores| ==> d.cores[i] in cores
  }

  method Contains(d: Domain, virtualCore: nat) returns (r: bool)
    ensures r <==> virtualCore in d.cores
  {
    var i := 0;
    while i < |d.cores|
      invariant 0 <= i <= |d.cores| && forall j :: 0 <= j < i ==> d.cores[j] != virtualCore
    {
      if d.cores[i] == virtualCore {
        return true;
      }
      i := i + 1;
    }
    r := false;
  }

  /** How many entries of a list belong to a domain. */
  function Count(d: Domain, cores: seq<nat>): nat {
    if cores == [] then 0
    else Count(d, cores[..|cores| - 1]) + if cores[|cores| - 1] in d.cores then 1 else 0
  }

  /** The domains with as many entries in the list as they have cores, in order. */
  function Counted(domains: seq<Domain>, cores: seq<nat>): seq<Domain> {
    if domains == [] then []
    else
      var last := domains[|domains| - 1];
      Counted(domains[..|domains| - 1], cores) + if Count(last, cores) == |last.cores| then [last] else []
  }

  method GetDomainsComplete(domains: seq<Domain>, virtualCores: seq<nat>) returns (r: seq<Domain>)
    ensures r == Counted(domains, virtualCores)
  {
    r := [];
    var i := 0;
    while i < |domains|
      invariant 0 <= i <= |domains| && r == Counted(domains[..i], virtualCores)
    {
      var contained := 0;
      var j := 0;
      while j < |virtualCores|
        invariant 0 <= j <= |virtualCores| && contained == Count(domains[i], virtualCores[..j])
      {
        var c := Contains(domains[i], virtualCores[j]);
        assert virtualCores[..j + 1][..j] == virtualCores[..j];
        if c {
          contained := contained + 1;
        }
        j := j + 1;
      }
      assert virtualCores[..j] == virtualCores;
      assert domains[..i + 1][..i] == domains[..i];
      if contained == |domains[i].cores| {
        r := r + [domains[i]];
      }
      i := i + 1;
    }
    assert domains[..i] == domains;
  }

  ghost function Elements(s: seq<nat>): set<nat> {
    set x | x in s
  }

  lemma {:induction false} DistinctSize(s: seq<nat>)
    requires Distinct(s)
    ensures |Elements(s)| == |s|
  {
    if s != [] {
      var front := s[..|s| - 1];
      DistinctSize(front);
      assert s == front + [s[|s| - 1]];
      assert Elements(s) == Elements(front) + {s[|s| - 1]};
    }
  }

  /** Without repetitions in the list the count is the size of an intersection. */
  lemma {:induction false} CountIsIntersection(d: Domain, cores: seq<nat>)
    requires Distinct(cores)
    ensures Count(d, cores) == |Elements(cores) * Elements(d.cores)|
  {
    if cores == [] {
      assert Elements(cores) * Elements(d.cores) == {};
    } else {
      var front, last := cores[..|cores| - 1], cores[|cores| - 1];
      CountIsIntersection(d, front);
      assert cores == front + [last];
      var before := Elements(front) * Elements(d.cores);
      assert Elements(cores) * Elements(d.cores) == before + if last in d.cores then {last} else {};
    }
  }

  lemma FullIntersection(a: set<nat>, b: set<nat>)
    ensures |a * b| == |b| <==> b <= a
  {
    if b <= a {
      assert a * b == b;
    } else {
      assert |b| == |a * b| + |b - a| by {
        assert b == a * b + (b - a);
      }
      var x :| x in b - a;
      assert |b - a| > 0;
    }
  }

  /** For a list and a domain without repetitions, counting decides whether the domain
      is complete. */
  lemma CountDecides(d: Domain, cores: seq<nat>)
    requires Distinct(cores) && Distinct(d.cores)
    ensures Count(d, cores) == |d.cores| <==> AllIn(d, cores)
  {
    CountIsIntersection(d, cores);
    DistinctSize(d.cores);
    FullIntersection(Elements(cores), Elements(d.cores));
    if Elements(d.cores) <= Elements(cores) {
      forall i | 0 <= i < |d.cores|
        ensures d.cores[i] in cores
      {
        assert d.cores[i] in Elements(d.cores);
      }
    } else {
      var x :| x in Elements(d.cores) && x !in Elements(cores);
    }
  }

  /** The domains that lie within the list, in order. */
  ghost function Complete(domains: seq<Domain>, cores: seq<nat>): seq<Domain> {
    if domains == [] then []
    else
      var last := domains[|domains| - 1];
      Complete(domains[..|domains| - 1], cores) + if AllIn(last, cores) then [last] else []
  }

  /** For a list without repetitions the selection is exactly the complete domains. */
  lemma {:induction false} CountedIsComplete(domains: seq<Domain>, cores: seq<nat>)
    requires Distinct(cores) && forall i :: 0 <= i < |domains| ==> Distinct(domains[i].cores)
    ensures Counted(domains, cores) == Complete(domains, cores)
  {
    if domains != [] {
      CountedIsComplete(domains[..|domains| - 1], cores);
      CountDecides(domains[|domains| - 1], cores);
    }
  }

  lemma {:induction false} CountTwice(x: nat, cores: seq<nat>, i: nat, j: nat)
    requires i < j < |cores| && cores[i] == x == cores[j]
    ensures Count(Domain(0, [x]), cores) >= 2
  {
    var front := cores[..|cores| - 1];
    if j < |front| {
      CountTwice(x, front, i, j);
    } else {
      CountOnce(x, front, i);
    }
  }

  lemma {:induction false} CountOnce(x: nat, cores: seq<nat>, i: nat)
    requires i < |cores| && cores[i] == x
    ensures Count(Domain(0, [x]), cores) >= 1
  {
    if i < |cores| - 1 { CountOnce(x, cores[..|cores| - 1], i); }
  }

  lemma OneDomain(d: Domain, cores: seq<nat>)
    ensures Counted([d], cores) == if Count(d, cores) == |d.cores| then [d] else []
    ensures Complete([d], cores) == if AllIn(d, cores) then [d] else []
  {
    hide Count, AllIn;
    assert [d][..0] == [];
  }

  /** A list gets the right answer for every domain exactly when it has no
      repetitions. */
  lemma CompleteExactly(cores: seq<nat>)
    ensures Distinct(cores) <==>
              forall d: Domain | Distinct(d.cores) :: Counted([d], cores) == Complete([d], cores)
  {
    if Distinct(cores) {
      forall d: Domain | Distinct(d.cores)
        ensures Counted([d], cores) == Complete([d], cores)
      {
        CountedIsComplete([d], cores);
      }
    } else {
      var i, j :| 0 <= i < j < |cores| && cores[i] == cores[j];
      var d := Domain(0, [cores[i]]);
      CountTwice(cores[i], cores, i, j);
      assert AllIn(d, cores);
      OneDomain(d, cores);
    }
  }

  /** The other way round: a core that is named twice stands in for one that is not
      named at all, and an incomplete domain is returned. */
  lemma RepetitionSelectsIncomplete()
    ensures var d := Domain(0, [0, 1]); Counted([d], [0, 0]) == [d] && !AllIn(d, [0, 0])
  {
    var d := Domain(0, [0, 1]);
    assert [0, 0][..1] == [0] && [0][..0] == [] && [d][..0] == [];
    assert Count(d, [0]) == 1 && Count(d, [0, 0]) == 2;
    assert d.cores[1] !in [0, 0];
  }
}
