/** The three-level tree of processors, physical cores and virtual cores (topology.cpp):
    renumbering of the core identifiers, construction from a list of coordinates, which
    a remote client repeats from the flattened tree, and lookups. */
module Topology {
  import opened Options

  /** VirtualCoreCoordinates, and a VirtualCore. */
  datatype Coord = Coord(cpu: nat, core: nat, virt: nat)

  datatype PhysicalCore = PhysicalCore(cpu: nat, id: nat, virtualCores: seq<Coord>)

  datatype Cpu = Cpu(id: nat, physicalCores: seq<PhysicalCore>)

  // ---------------------------------------------------------------------
  // The different values of a sequence, in the order in which they first occur

  function FirstSeen<T(==)>(s: seq<T>): seq<T> {
    if s == [] then []
    else
      var before := FirstSeen(s[..|s| - 1]);
      if s[|s| - 1] in before then before else before + [s[|s| - 1]]
  }

  ghost predicate Distinct<T>(s: seq<T>) {
    forall i, j :: 0 <= i < j < |s| ==> s[i] != s[j]
  }

  lemma {:induction false} FirstSeenMembers<T>(s: seq<T>)
    ensures forall x :: x in FirstSeen(s) <==> x in s
    ensures Distinct(FirstSeen(s))
  {
    if s != [] {
      FirstSeenMembers(s[..|s| - 1]);
      assert s == s[..|s| - 1] + [s[|s| - 1]];
    }
  }

  lemma FirstSeenSnoc<T>(s: seq<T>, x: T)
    ensures FirstSeen(s + [x]) == if x in FirstSeen(s) then FirstSeen(s) else FirstSeen(s) + [x]
  {
    assert (s + [x])[..|s + [x]| - 1] == s;
  }

  /** A value that is there already adds nothing. */
  lemma {:induction false} FirstSeenSame<T>(s: seq<T>, t: seq<T>)
    requires forall i :: 0 <= i < |t| ==> t[i] in FirstSeen(s)
    ensures FirstSeen(s + t) == FirstSeen(s)
    decreases |t|
  {
    if t == [] {
      assert s + t == s;
    } else {
      var front, last := t[..|t| - 1], t[|t| - 1];
      FirstSeenSame(s, front);
      assert s + t == (s + front) + [last];
      FirstSeenSnoc(s + front, last);
    }
  }

  /** Equal new values add one. */
  lemma FirstSeenBlock<T>(s: seq<T>, x: T, t: seq<T>)
    requires t != [] && x !in s && forall i :: 0 <= i < |t| ==> t[i] == x
    ensures FirstSeen(s + t) == FirstSeen(s) + [x]
  {
    FirstSeenMembers(s);
    FirstSeenSnoc(s, x);
    assert s + t == (s + [x]) + t[1..];
    FirstSeenSame(s + [x], t[1..]);
  }

  // ---------------------------------------------------------------------
  // Grouping

  /** What the coordinates are grouped by. */
  datatype Level = ByCpu | ByCore

  function Key(l: Level, c: Coord): nat {
    match l
    case ByCpu => c.cpu
    case ByCore => c.core
  }

  function Keys(l: Level, s: seq<Coord>): (k: seq<nat>)
    ensures |k| == |s| && forall i :: 0 <= i < |s| ==> k[i] == Key(l, s[i])
  {
    seq(|s|, i requires 0 <= i < |s| => Key(l, s[i]))
  }

  /** The coordinates with a key, in order. */
  function Class(l: Level, s: seq<Coord>, k: nat): seq<Coord> {
    if s == [] then []
    else Class(l, s[..|s| - 1], k) + if Key(l, s[|s| - 1]) == k then [s[|s| - 1]] else []
  }

  lemma {:induction false} ClassAppend(l: Level, s: seq<Coord>, t: seq<Coord>, k: nat)
    ensures Class(l, s + t, k) == Class(l, s, k) + Class(l, t, k)
    decreases |t|
  {
    if t == [] {
      assert s + t == s;
    } else {
      assert (s + t)[..|s + t| - 1] == s + t[..|t| - 1];
      ClassAppend(l, s, t[..|t| - 1], k);
    }
  }

  lemma {:induction false} ClassAll(l: Level, s: seq<Coord>, k: nat)
    requires forall i :: 0 <= i < |s| ==> Key(l, s[i]) == k
    ensures Class(l, s, k) == s
  {
    if s != [] {
      ClassAll(l, s[..|s| - 1], k);
      assert s == s[..|s| - 1] + [s[|s| - 1]];
    }
  }

  lemma {:induction false} ClassNone(l: Level, s: seq<Coord>, k: nat)
    requires forall i :: 0 <= i < |s| ==> Key(l, s[i]) != k
    ensures Class(l, s, k) == []
  {
    if s != [] { ClassNone(l, s[..|s| - 1], k); }
  }

  lemma {:induction false} ClassKeys(l: Level, s: seq<Coord>, k: nat)
    ensures forall i :: 0 <= i < |Class(l, s, k)| ==> Key(l, Class(l, s, k)[i]) == k && Class(l, s, k)[i] in s
    ensures Class(l, s, k) == [] <==> k !in Keys(l, s)
  {
    if s != [] {
      var front := s[..|s| - 1];
      ClassKeys(l, front, k);
      assert Keys(l, s) == Keys(l, front) + [Key(l, s[|s| - 1])];
      assert forall x :: x in front ==> x in s;
    }
  }

  datatype Block = Block(key: nat, items: seq<Coord>)

  function Group(l: Level, s: seq<Coord>): seq<Block> {
    var keys := FirstSeen(Keys(l, s));
    seq(|keys|, i requires 0 <= i < |keys| => Block(keys[i], Class(l, s, keys[i])))
  }

  function Concat(blocks: seq<Block>): seq<Coord> {
    if blocks == [] then [] else Concat(blocks[..|blocks| - 1]) + blocks[|blocks| - 1].items
  }

  /** Blocks with different keys, not empty, each of them with items of its key. */
  ghost predicate Grouped(l: Level, blocks: seq<Block>) {
    && (forall i, j :: 0 <= i < j < |blocks| ==> blocks[i].key != blocks[j].key)
    && (forall i :: 0 <= i < |blocks| ==> blocks[i].items != [])
    && (forall i, j :: 0 <= i < |blocks| && 0 <= j < |blocks[i].items| ==> Key(l, blocks[i].items[j]) == blocks[i].key)
  }

  lemma GroupIsGrouped(l: Level, s: seq<Coord>)
    ensures Grouped(l, Group(l, s))
  {
    var keys := FirstSeen(Keys(l, s));
    FirstSeenMembers(Keys(l, s));
    forall i | 0 <= i < |keys|
      ensures Class(l, s, keys[i]) != []
      ensures forall j :: 0 <= j < |Class(l, s, keys[i])| ==> Key(l, Class(l, s, keys[i])[j]) == keys[i]
    {
      assert keys[i] in keys;
      ClassKeys(l, s, keys[i]);
    }
  }

  function BlockKeys(blocks: seq<Block>): seq<nat> {
    seq(|blocks|, i requires 0 <= i < |blocks| => blocks[i].key)
  }

  lemma {:induction false} ConcatKeys(l: Level, blocks: seq<Block>)
    requires Grouped(l, blocks)
    ensures FirstSeen(Keys(l, Concat(blocks))) == BlockKeys(blocks)
    ensures forall i :: 0 <= i < |Concat(blocks)| ==> Key(l, Concat(blocks)[i]) in BlockKeys(blocks)
  {
    hide FirstSeen;
    if blocks == [] {
      assert Keys(l, Concat(blocks)) == [];
      FirstSeenNothing<nat>();
    } else {
      var front, last := blocks[..|blocks| - 1], blocks[|blocks| - 1];
      ConcatKeys(l, front);
      FirstSeenMembers(Keys(l, Concat(front)));
      assert Keys(l, Concat(blocks)) == Keys(l, Concat(front)) + Keys(l, last.items);
      assert BlockKeys(blocks) == BlockKeys(front) + [last.key];
      forall i | 0 <= i < |BlockKeys(front)|
        ensures BlockKeys(front)[i] != last.key
      {
        assert front[i].key == blocks[i].key;
      }
      FirstSeenBlock(Keys(l, Concat(front)), last.key, Keys(l, last.items));
    }
  }

  lemma {:induction false} ConcatClassNone(l: Level, blocks: seq<Block>, k: nat)
    requires Grouped(l, blocks) && forall i :: 0 <= i < |blocks| ==> blocks[i].key != k
    ensures Class(l, Concat(blocks), k) == []
  {
    if blocks != [] {
      var front, last := blocks[..|blocks| - 1], blocks[|blocks| - 1];
      ConcatClassNone(l, front, k);
      ClassAppend(l, Concat(front), last.items, k);
      ClassNone(l, last.items, k);
    }
  }

  lemma {:induction false} ConcatClass(l: Level, blocks: seq<Block>, i: nat)
    requires Grouped(l, blocks) && i < |blocks|
    ensures Class(l, Concat(blocks), blocks[i].key) == blocks[i].items
  {
    hide Class, Key;
    var front, last, k := blocks[..|blocks| - 1], blocks[|blocks| - 1], blocks[i].key;
    ClassAppend(l, Concat(front), last.items, k);
    if i == |blocks| - 1 {
      ConcatClassNone(l, front, k);
      ClassAll(l, last.items, k);
    } else {
      ConcatClass(l, front, i);
      ClassNone(l, last.items, k);
    }
  }

  /** Grouping the concatenation of grouped blocks gives the blocks back. */
  lemma GroupConcat(l: Level, blocks: seq<Block>)
    requires Grouped(l, blocks)
    ensures Group(l, Concat(blocks)) == blocks
  {
    ConcatKeys(l, blocks);
    forall i | 0 <= i < |blocks|
      ensures Group(l, Concat(blocks))[i] == blocks[i]
    {
      ConcatClass(l, blocks, i);
    }
  }

  // ---------------------------------------------------------------------
  // Trees

  function CoreBlocks(cores: seq<PhysicalCore>): seq<Block> {
    seq(|cores|, i requires 0 <= i < |cores| => Block(cores[i].id, cores[i].virtualCores))
  }

  /** The virtual cores of some physical cores, in order. */
  function FlattenCores(cores: seq<PhysicalCore>): seq<Coord> {
    Concat(CoreBlocks(cores))
  }

  function CpuBlocks(cpus: seq<Cpu>): seq<Block> {
    seq(|cpus|, i requires 0 <= i < |cpus| => Block(cpus[i].id, FlattenCores(cpus[i].physicalCores)))
  }

  /** All virtual cores, processor by processor and physical core by physical core. */
  function Flatten(cpus: seq<Cpu>): seq<Coord> {
    Concat(CpuBlocks(cpus))
  }

  function AllCores(cpus: seq<Cpu>): seq<PhysicalCore> {
    if cpus == [] then [] else AllCores(cpus[..|cpus| - 1]) + cpus[|cpus| - 1].physicalCores
  }

  /** A tree: no processor twice, no physical core twice in one processor, none of them
      empty, and every core where its coordinates say. */
  ghost predicate Tree(cpus: seq<Cpu>) {
    && Grouped(ByCpu, CpuBlocks(cpus))
    && (forall i :: 0 <= i < |cpus| ==> Grouped(ByCore, CoreBlocks(cpus[i].physicalCores)))
    && (forall i, j :: 0 <= i < |cpus| && 0 <= j < |cpus[i].physicalCores| ==>
          cpus[i].physicalCores[j].cpu == cpus[i].id)
  }

  function CoresOf(cpu: nat, blocks: seq<Block>): seq<PhysicalCore> {
    seq(|blocks|, i requires 0 <= i < |blocks| => PhysicalCore(cpu, blocks[i].key, blocks[i].items))
  }

  function CpuOf(b: Block): Cpu {
    Cpu(b.key, CoresOf(b.key, Group(ByCore, b.items)))
  }

  function CpusOf(blocks: seq<Block>): seq<Cpu> {
    seq(|blocks|, i requires 0 <= i < |blocks| => CpuOf(blocks[i]))
  }

  function Build(coord: seq<Coord>): seq<Cpu> {
    CpusOf(Group(ByCpu, coord))
  }

  lemma CoreBlocksOf(cpu: nat, blocks: seq<Block>)
    ensures CoreBlocks(CoresOf(cpu, blocks)) == blocks
  {
  }

  /** Grouping only moves items; each class keeps its order. */
  lemma SameClasses(l: Level, s: seq<Coord>, k: nat)
    ensures Class(l, Concat(Group(l, s)), k) == Class(l, s, k)
  {
    hide Class;
    var blocks, keys := Group(l, s), FirstSeen(Keys(l, s));
    GroupIsGrouped(l, s);
    FirstSeenMembers(Keys(l, s));
    if k in keys {
      var i :| 0 <= i < |keys| && keys[i] == k;
      ConcatClass(l, blocks, i);
    } else {
      ClassKeys(l, s, k);
      assert forall i :: 0 <= i < |blocks| ==> blocks[i].key == keys[i];
      ConcatClassNone(l, blocks, k);
    }
  }

  lemma {:induction false} CountInClass(l: Level, s: seq<Coord>, c: Coord)
    ensures multiset(s)[c] == multiset(Class(l, s, Key(l, c)))[c]
  {
    if s != [] {
      CountInClass(l, s[..|s| - 1], c);
      assert s == s[..|s| - 1] + [s[|s| - 1]];
    }
  }

  lemma GroupPermutes(l: Level, s: seq<Coord>)
    ensures multiset(Concat(Group(l, s))) == multiset(s)
  {
    forall c: Coord
      ensures multiset(Concat(Group(l, s)))[c] == multiset(s)[c]
    {
      CountInClass(l, Concat(Group(l, s)), c);
      CountInClass(l, s, c);
      SameClasses(l, s, Key(l, c));
    }
  }

  lemma {:induction false} ConcatPermutes(a: seq<Block>, b: seq<Block>)
    requires |a| == |b| && forall i :: 0 <= i < |a| ==> multiset(a[i].items) == multiset(b[i].items)
    ensures multiset(Concat(a)) == multiset(Concat(b))
  {
    if a != [] {
      ConcatPermutes(a[..|a| - 1], b[..|b| - 1]);
    }
  }

  lemma CpuBlocksOfBuild(coord: seq<Coord>, i: nat)
    requires i < |Build(coord)|
    ensures CpuBlocks(Build(coord))[i].key == Group(ByCpu, coord)[i].key
    ensures CpuBlocks(Build(coord))[i].items == Concat(Group(ByCore, Group(ByCpu, coord)[i].items))
    ensures multiset(CpuBlocks(Build(coord))[i].items) == multiset(Group(ByCpu, coord)[i].items)
  {
    hide Group, Concat;
    var b := Group(ByCpu, coord)[i];
    CoreBlocksOf(b.key, Group(ByCore, b.items));
    GroupPermutes(ByCore, b.items);
  }

  /** Building neither loses nor invents a coordinate. */
  lemma BuildPartitions(coord: seq<Coord>)
    ensures multiset(Flatten(Build(coord))) == multiset(coord)
  {
    hide Group, Concat;
    forall i | 0 <= i < |Build(coord)|
      ensures multiset(CpuBlocks(Build(coord))[i].items) == multiset(Group(ByCpu, coord)[i].items)
    {
      CpuBlocksOfBuild(coord, i);
    }
    ConcatPermutes(CpuBlocks(Build(coord)), Group(ByCpu, coord));
    GroupPermutes(ByCpu, coord);
  }

  lemma SameElements(a: seq<Coord>, b: seq<Coord>, j: nat)
    requires multiset(a) == multiset(b) && j < |a|
    ensures a[j] in b && |a| == |b|
  {
    assert a[j] in multiset(a);
  }

  lemma BuildIsTree(coord: seq<Coord>)
    ensures Tree(Build(coord))
  {
    hide Class, FirstSeen, Concat, Keys;
    var cpus, blocks := Build(coord), Group(ByCpu, coord);
    var own := CpuBlocks(cpus);
    GroupIsGrouped(ByCpu, coord);
    forall i | 0 <= i < |cpus|
      ensures own[i].key == blocks[i].key && own[i].items != []
      ensures forall j :: 0 <= j < |own[i].items| ==> Key(ByCpu, own[i].items[j]) == own[i].key
      ensures Grouped(ByCore, CoreBlocks(cpus[i].physicalCores))
    {
      CpuBlocksOfBuild(coord, i);
      forall j | 0 <= j < |own[i].items|
        ensures Key(ByCpu, own[i].items[j]) == own[i].key
      {
        SameElements(own[i].items, blocks[i].items, j);
      }
      SameElements(blocks[i].items, own[i].items, 0);
      CoreBlocksOf(blocks[i].key, Group(ByCore, blocks[i].items));
      GroupIsGrouped(ByCore, blocks[i].items);
    }
  }

  /** Any tree is rebuilt from its own virtual cores: same processors, physical cores
      and virtual cores, same order, same nesting. */
  lemma Rebuild(cpus: seq<Cpu>)
    requires Tree(cpus)
    ensures Build(Flatten(cpus)) == cpus
  {
    hide Group, Concat;
    GroupConcat(ByCpu, CpuBlocks(cpus));
    forall i | 0 <= i < |cpus|
      ensures CpuOf(CpuBlocks(cpus)[i]) == cpus[i]
    {
      var cores := cpus[i].physicalCores;
      GroupConcat(ByCore, CoreBlocks(cores));
      assert CoresOf(cpus[i].id, CoreBlocks(cores)) == cores;
    }
  }

  lemma RebuildIsIdempotent(coord: seq<Coord>)
    ensures Build(Flatten(Build(coord))) == Build(coord)
  {
    BuildIsTree(coord);
    Rebuild(Build(coord));
  }

  // ---------------------------------------------------------------------
  // The vectors of the class

  lemma ClassSnoc(l: Level, s: seq<Coord>, x: Coord, k: nat)
    ensures Class(l, s + [x], k) == Class(l, s, k) + if Key(l, x) == k then [x] else []
  {
    assert (s + [x])[..|s + [x]| - 1] == s;
  }

  lemma {:induction false} AllCoresSnoc(cpus: seq<Cpu>, c: Cpu)
    ensures AllCores(cpus + [c]) == AllCores(cpus) + c.physicalCores
  {
    assert (cpus + [c])[..|cpus + [c]| - 1] == cpus;
  }

  lemma FlattenSnoc(cpus: seq<Cpu>, c: Cpu)
    ensures Flatten(cpus + [c]) == Flatten(cpus) + FlattenCores(c.physicalCores)
  {
    var blocks := CpuBlocks(cpus + [c]);
    assert blocks[..|blocks| - 1] == CpuBlocks(cpus);
  }

  lemma FlattenCoresSnoc(cores: seq<PhysicalCore>, p: PhysicalCore)
    ensures FlattenCores(cores + [p]) == FlattenCores(cores) + p.virtualCores
  {
    var blocks := CoreBlocks(cores + [p]);
    assert blocks[..|blocks| - 1] == CoreBlocks(cores);
  }

  /** The physical cores with some identifiers of a processor. */
  function CoresNamed(own: seq<Coord>, cpu: nat, ids: seq<nat>): seq<PhysicalCore> {
    seq(|ids|, i requires 0 <= i < |ids| => PhysicalCore(cpu, ids[i], Class(ByCore, own, ids[i])))
  }

  lemma CoresNamedAll(own: seq<Coord>, cpu: nat)
    ensures CoresNamed(own, cpu, FirstSeen(Keys(ByCore, own))) == CoresOf(cpu, Group(ByCore, own))
  {
  }

  class Topology {
    var cpus: seq<Cpu>
    var physicalCores: seq<PhysicalCore>
    var virtualCores: seq<Coord>

    ghost predicate Valid()
      reads this
    {
      Tree(cpus) && physicalCores == AllCores(cpus) && virtualCores == Flatten(cpus)
    }

    constructor (coord: seq<Coord>)
      ensures Valid() && cpus == Build(coord) && multiset(virtualCores) == multiset(coord)
    {
      cpus, physicalCores, virtualCores := [], [], [];
      new;
      BuildCpuVector(coord);
      BuildIsTree(coord);
      BuildPartitions(coord);
    }

    method BuildVirtualCoresVector(coord: seq<Coord>, cpuId: nat, physicalCoreId: nat) returns (vir: seq<Coord>)
      modifies this`virtualCores
      ensures vir == Class(ByCore, Class(ByCpu, coord, cpuId), physicalCoreId)
      ensures virtualCores == old(virtualCores) + vir
    {
      hide Class;
      vir := [];
      var i := 0;
      ClassNone(ByCpu, [], cpuId);
      ClassNone(ByCore, [], physicalCoreId);
      while i < |coord|
        invariant 0 <= i <= |coord|
        invariant vir == Class(ByCore, Class(ByCpu, coord[..i], cpuId), physicalCoreId)
        invariant virtualCores == old(virtualCores) + vir
      {
        var vcc := coord[i];
        assert coord[..i + 1] == coord[..i] + [vcc];
        ClassSnoc(ByCpu, coord[..i], vcc, cpuId);
        ClassSnoc(ByCore, Class(ByCpu, coord[..i], cpuId), vcc, physicalCoreId);
        assert Class(ByCpu, coord[..i], cpuId) + [] == Class(ByCpu, coord[..i], cpuId) && vir + [] == vir;
        if vcc.cpu == cpuId && vcc.core == physicalCoreId {
          vir := vir + [vcc];
          virtualCores := virtualCores + [vcc];
        }
        i := i + 1;
      }
      assert coord[..i] == coord;
    }

    method BuildPhysicalCoresVector(coord: seq<Coord>, cpuId: nat) returns (phy: seq<PhysicalCore>)
      modifies this`physicalCores, this`virtualCores
      ensures phy == CoresOf(cpuId, Group(ByCore, Class(ByCpu, coord, cpuId)))
      ensures physicalCores == old(physicalCores) + phy
      ensures virtualCores == old(virtualCores) + FlattenCores(phy)
    {
      hide Class, FirstSeen, Concat, Group;
      ghost var own := Class(ByCpu, coord, cpuId);
      phy := [];
      var used: seq<nat> := [];
      var i := 0;
      BuildStart(coord, cpuId);
      while i < |coord|
        invariant 0 <= i <= |coord|
        invariant used == FirstSeen(Keys(ByCore, Class(ByCpu, coord[..i], cpuId)))
        invariant phy == CoresNamed(own, cpuId, used)
        invariant physicalCores == old(physicalCores) + phy
        invariant virtualCores == old(virtualCores) + FlattenCores(phy)
      {
        var vcc := coord[i];
        UsedSnoc(coord, i, cpuId);
        if vcc.cpu == cpuId && vcc.core !in used {
          var vir := BuildVirtualCoresVector(coord, vcc.cpu, vcc.core);
          var p := PhysicalCore(vcc.cpu, vcc.core, vir);
          FlattenCoresSnoc(phy, p);
          phy := phy + [p];
          physicalCores := physicalCores + [p];
          used := used + [vcc.core];
        }
        i := i + 1;
      }
      assert coord[..i] == coord;
      CoresNamedAll(own, cpuId);
    }

    method BuildCpuVector(coord: seq<Coord>)
      modifies this
      requires cpus == [] && physicalCores == [] && virtualCores == []
      ensures cpus == Build(coord) && physicalCores == AllCores(cpus) && virtualCores == Flatten(cpus)
    {
      hide Class, FirstSeen, Group, Flatten, FlattenCores;
      var unique: seq<nat> := UniqueCpuIds(coord);
      var i := 0;
      FlattenNothing();
      while i < |unique|
        invariant 0 <= i <= |unique|
        invariant cpus == seq(i, j requires 0 <= j < i => CpuOf(Block(unique[j], Class(ByCpu, coord, unique[j]))))
        invariant physicalCores == AllCores(cpus) && virtualCores == Flatten(cpus)
      {
        var phy := BuildPhysicalCoresVector(coord, unique[i]);
        var c := Cpu(unique[i], phy);
        AllCoresSnoc(cpus, c);
        FlattenSnoc(cpus, c);
        cpus := cpus + [c];
        i := i + 1;
      }
      GroupIs(ByCpu, coord);
    }

    method UniqueCpuIds(coord: seq<Coord>) returns (unique: seq<nat>)
      ensures unique == FirstSeen(Keys(ByCpu, coord))
    {
      hide FirstSeen;
      unique := [];
      var i := 0;
      assert Keys(ByCpu, coord[..0]) == [];
      FirstSeenNothing<nat>();
      while i < |coord|
        invariant 0 <= i <= |coord| && unique == FirstSeen(Keys(ByCpu, coord[..i]))
      {
        assert Keys(ByCpu, coord[..i + 1]) == Keys(ByCpu, coord[..i]) + [coord[i].cpu];
        FirstSeenSnoc(Keys(ByCpu, coord[..i]), coord[i].cpu);
        if coord[i].cpu !in unique {
          unique := unique + [coord[i].cpu];
        }
        i := i + 1;
      }
      assert coord[..i] == coord;
    }

    /** A remote client builds its tree from the coordinates that GetTopology sends,
        those of the virtual cores in order, and obtains the same vectors. */
    method Remote() returns (client: Topology)
      requires Valid()
      ensures client.Valid() && fresh(client)
      ensures client.cpus == cpus && client.physicalCores == physicalCores && client.virtualCores == virtualCores
    {
      client := new Topology(virtualCores);
      Rebuild(cpus);
    }
  }

  lemma FirstSeenNothing<T>()
    ensures FirstSeen<T>([]) == []
  {
  }

  lemma FlattenNothing()
    ensures Flatten([]) == []
  {
  }

  lemma GroupIs(l: Level, s: seq<Coord>)
    ensures var keys := FirstSeen(Keys(l, s));
      Group(l, s) == seq(|keys|, j requires 0 <= j < |keys| => Block(keys[j], Class(l, s, keys[j])))
  {
  }

  lemma BuildStart(coord: seq<Coord>, cpuId: nat)
    ensures FirstSeen(Keys(ByCore, Class(ByCpu, coord[..0], cpuId))) == []
    ensures FlattenCores([]) == []
  {
  }

  lemma UsedSnoc(coord: seq<Coord>, i: nat, cpuId: nat)
    requires i < |coord|
    ensures var before := FirstSeen(Keys(ByCore, Class(ByCpu, coord[..i], cpuId)));
      FirstSeen(Keys(ByCore, Class(ByCpu, coord[..i + 1], cpuId)))
      == if coord[i].cpu == cpuId && coord[i].core !in before then before + [coord[i].core] else before
  {
    hide Class, FirstSeen;
    var own := Class(ByCpu, coord[..i], cpuId);
    assert coord[..i + 1] == coord[..i] + [coord[i]];
    ClassSnoc(ByCpu, coord[..i], coord[i], cpuId);
    if coord[i].cpu == cpuId {
      assert Keys(ByCore, own + [coord[i]]) == Keys(ByCore, own) + [coord[i].core];
      FirstSeenSnoc(Keys(ByCore, own), coord[i].core);
    } else {
      assert own + [] == own;
    }
  }

  // ---------------------------------------------------------------------
  // Renumbering

  /** The pairs of package and core_id, which identify physical cores. */
  function Pairs(raw: seq<Coord>): (p: seq<(nat, nat)>)
    ensures |p| == |raw|
  {
    seq(|raw|, i requires 0 <= i < |raw| => (raw[i].cpu, raw[i].core))
  }

  /** coord is raw with each core_id replaced by the position at which its pair first
      occurred among the different pairs. */
  ghost predicate Renumbered(raw: seq<Coord>, coord: seq<Coord>) {
    && |coord| == |raw|
    && forall i :: 0 <= i < |raw| ==>
         && coord[i].cpu == raw[i].cpu && coord[i].virt == raw[i].virt
         && coord[i].core < |FirstSeen(Pairs(raw))|
         && FirstSeen(Pairs(raw))[coord[i].core] == (raw[i].cpu, raw[i].core)
  }

  /** The loop of the constructor of the local topology. */
  method Renumber(raw: seq<Coord>) returns (coord: seq<Coord>)
    ensures Renumbered(raw, coord)
  {
    hide FirstSeen;
    coord := [];
    var uniquePhysicalCoreIds: map<(nat, nat), nat> := map[];
    var nextIdToUse := 0;
    var i := 0;
    assert Pairs(raw[..0]) == [];
    FirstSeenNothing<(nat, nat)>();
    while i < |raw|
      invariant 0 <= i <= |raw| && Renumbered(raw[..i], coord)
      invariant nextIdToUse == |FirstSeen(Pairs(raw[..i]))|
      invariant forall p :: p in uniquePhysicalCoreIds <==> p in FirstSeen(Pairs(raw[..i]))
      invariant forall p :: p in uniquePhysicalCoreIds ==>
                  uniquePhysicalCoreIds[p] < nextIdToUse && FirstSeen(Pairs(raw[..i]))[uniquePhysicalCoreIds[p]] == p
    {
      var vcc := raw[i];
      var pair := (vcc.cpu, vcc.core);
      assert Pairs(raw[..i + 1]) == Pairs(raw[..i]) + [pair];
      FirstSeenSnoc(Pairs(raw[..i]), pair);
      if pair !in uniquePhysicalCoreIds {
        uniquePhysicalCoreIds := uniquePhysicalCoreIds[pair := nextIdToUse];
        vcc := vcc.(core := nextIdToUse);
        nextIdToUse := nextIdToUse + 1;
      } else {
        vcc := vcc.(core := uniquePhysicalCoreIds[pair]);
      }
      coord := coord + [vcc];
      i := i + 1;
    }
    assert raw[..i] == raw;
  }

  /** The values come in the order of their first occurrence. */
  lemma {:induction false} FirstSeenInOrder<T>(s: seq<T>, k: nat) returns (i: nat)
    requires k < |FirstSeen(s)|
    ensures i < |s| && s[i] == FirstSeen(s)[k] && FirstSeen(s[..i]) == FirstSeen(s)[..k]
  {
    var front := s[..|s| - 1];
    if k < |FirstSeen(front)| {
      i := FirstSeenInOrder(front, k);
      assert s[..i] == front[..i];
    } else {
      i := |s| - 1;
    }
  }

  /** Equal identifiers stand for equal pairs, and only for them. */
  lemma RenumberedInjective(raw: seq<Coord>, coord: seq<Coord>, i: nat, j: nat)
    requires Renumbered(raw, coord) && i < |raw| && j < |raw|
    ensures coord[i].core == coord[j].core <==> (raw[i].cpu, raw[i].core) == (raw[j].cpu, raw[j].core)
  {
    hide FirstSeen;
    FirstSeenMembers(Pairs(raw));
  }

  /** Every identifier below the number of different pairs is given, at some i, and
      none above it is given before. */
  lemma RenumberedOnto(raw: seq<Coord>, coord: seq<Coord>, n: nat) returns (i: nat)
    requires Renumbered(raw, coord) && n < |FirstSeen(Pairs(raw))|
    ensures i < |coord| && coord[i].core == n
    ensures forall j :: 0 <= j < i ==> coord[j].core < n
  {
    hide FirstSeen;
    var seen := FirstSeen(Pairs(raw));
    FirstSeenMembers(Pairs(raw));
    i := FirstSeenInOrder(Pairs(raw), n);
    FirstSeenMembers(Pairs(raw)[..i]);
    assert seen[coord[i].core] == seen[n];
    forall j | 0 <= j < i
      ensures coord[j].core < n
    {
      assert Pairs(raw)[..i][j] in seen[..n];
      assert seen[coord[j].core] == Pairs(raw)[j];
    }
  }

  /** Identifiers of physical cores are unique across processors. */
  ghost predicate Unique(cpus: seq<Cpu>) {
    forall i, j, m, n |
      0 <= i < |cpus| && 0 <= j < |cpus[i].physicalCores| && 0 <= m < |cpus| && 0 <= n < |cpus[m].physicalCores| ::
      cpus[i].physicalCores[j].id == cpus[m].physicalCores[n].id ==> i == m && j == n
  }

  /** Two coordinates with the same core have the same processor. */
  ghost predicate CoreInOneCpu(coord: seq<Coord>) {
    forall i, j :: 0 <= i < |coord| && 0 <= j < |coord| && coord[i].core == coord[j].core ==>
      coord[i].cpu == coord[j].cpu
  }

  lemma {:induction false} ConcatMember(blocks: seq<Block>, i: nat, j: nat)
    requires i < |blocks| && j < |blocks[i].items|
    ensures blocks[i].items[j] in Concat(blocks)
  {
    if i < |blocks| - 1 {
      ConcatMember(blocks[..|blocks| - 1], i, j);
    }
  }

  /** In a tree each physical core is that of one of its virtual cores. */
  lemma CoreHasCoord(cpus: seq<Cpu>, i: nat, j: nat) returns (c: Coord)
    requires Tree(cpus) && i < |cpus| && j < |cpus[i].physicalCores|
    ensures c in Flatten(cpus) && c.cpu == cpus[i].id && c.core == cpus[i].physicalCores[j].id
  {
    hide Concat;
    var cores := cpus[i].physicalCores;
    c := CoreBlocks(cores)[j].items[0];
    ConcatMember(CoreBlocks(cores), j, 0);
    assert Key(ByCore, c) == CoreBlocks(cores)[j].key;
    var k :| 0 <= k < |FlattenCores(cores)| && FlattenCores(cores)[k] == c;
    assert Key(ByCpu, CpuBlocks(cpus)[i].items[k]) == CpuBlocks(cpus)[i].key;
    ConcatMember(CpuBlocks(cpus), i, k);
  }

  lemma TreeUnique(cpus: seq<Cpu>)
    requires Tree(cpus) && CoreInOneCpu(Flatten(cpus))
    ensures Unique(cpus)
  {
    hide Concat;
    forall i, j, m, n |
      0 <= i < |cpus| && 0 <= j < |cpus[i].physicalCores| && 0 <= m < |cpus| && 0 <= n < |cpus[m].physicalCores|
      && cpus[i].physicalCores[j].id == cpus[m].physicalCores[n].id
      ensures i == m && j == n
    {
      var c := CoreHasCoord(cpus, i, j);
      var d := CoreHasCoord(cpus, m, n);
      assert CpuBlocks(cpus)[i].key == CpuBlocks(cpus)[m].key;
      assert CoreBlocks(cpus[i].physicalCores)[j].key == CoreBlocks(cpus[m].physicalCores)[n].key;
    }
  }

  /** After renumbering, which makes the tree of a local topology, identifiers of
      physical cores are unique in the whole tree. */
  lemma RenumberedUnique(raw: seq<Coord>, coord: seq<Coord>)
    requires Renumbered(raw, coord)
    ensures Unique(Build(coord))
  {
    hide FirstSeen, Concat, Build;
    var flat := Flatten(Build(coord));
    BuildIsTree(coord);
    BuildPartitions(coord);
    forall i, j | 0 <= i < |flat| && 0 <= j < |flat| && flat[i].core == flat[j].core
      ensures flat[i].cpu == flat[j].cpu
    {
      SameElements(flat, coord, i);
      SameElements(flat, coord, j);
      var m :| 0 <= m < |coord| && coord[m] == flat[i];
      var n :| 0 <= n < |coord| && coord[n] == flat[j];
      RenumberedInjective(raw, coord, m, n);
    }
    TreeUnique(Build(coord));
  }

  // ---------------------------------------------------------------------
  // Lookups

  method CpuGetPhysicalCore(cpu: Cpu, physicalCoreId: nat) returns (r: Option<PhysicalCore>, ghost at: nat)
    ensures r.None? <==> forall j :: 0 <= j < |cpu.physicalCores| ==> cpu.physicalCores[j].id != physicalCoreId
    ensures r.Some? ==> at < |cpu.physicalCores| && r.value == cpu.physicalCores[at] && r.value.id == physicalCoreId
    ensures r.Some? ==> forall j :: 0 <= j < at ==> cpu.physicalCores[j].id != physicalCoreId
  {
    var i := 0;
    while i < |cpu.physicalCores|
      invariant 0 <= i <= |cpu.physicalCores|
      invariant forall j :: 0 <= j < i ==> cpu.physicalCores[j].id != physicalCoreId
    {
      if cpu.physicalCores[i].id == physicalCoreId {
        return Some(cpu.physicalCores[i]), i;
      }
      i := i + 1;
    }
    r, at := None, 0;
  }

  /** The first physical core with an identifier, which is the only one when they are
      unique, or none when there is none. */
  method GetPhysicalCore(cpus: seq<Cpu>, physicalCoreId: nat)
      returns (r: Option<PhysicalCore>, ghost c: nat, ghost at: nat)
    ensures r.None? <==>
              forall i, j :: 0 <= i < |cpus| && 0 <= j < |cpus[i].physicalCores| ==>
                cpus[i].physicalCores[j].id != physicalCoreId
    ensures r.Some? ==> c < |cpus| && at < |cpus[c].physicalCores| && r.value == cpus[c].physicalCores[at]
    ensures r.Some? ==>
              && r.value.id == physicalCoreId
              && forall i, j | 0 <= i < |cpus| && 0 <= j < |cpus[i].physicalCores| ::
                   i < c || (i == c && j < at) ==> cpus[i].physicalCores[j].id != physicalCoreId
    ensures r.Some? && Unique(cpus) ==>
              forall i, j :: 0 <= i < |cpus| && 0 <= j < |cpus[i].physicalCores| ==>
                (cpus[i].physicalCores[j].id == physicalCoreId <==> i == c && j == at)
  {
    var i := 0;
    while i < |cpus|
      invariant 0 <= i <= |cpus|
      invariant forall k, j :: 0 <= k < i && 0 <= j < |cpus[k].physicalCores| ==>
                  cpus[k].physicalCores[j].id != physicalCoreId
    {
      var pc, at := CpuGetPhysicalCore(cpus[i], physicalCoreId);
      if pc.Some? {
        return pc, i, at;
      }
      i := i + 1;
    }
    r, c, at := None, 0, 0;
  }

  function Cores(s: seq<Coord>): (k: seq<nat>)
    ensures |k| == |s|
  {
    Keys(ByCore, s)
  }

  function Ids(s: seq<PhysicalCore>): (k: seq<nat>)
    ensures |k| == |s|
  {
    seq(|s|, i requires 0 <= i < |s| => s[i].id)
  }

  lemma CoresSnoc(s: seq<Coord>, i: nat)
    requires i < |s|
    ensures FirstSeen(Cores(s[..i + 1]))
         == if s[i].core in FirstSeen(Cores(s[..i])) then FirstSeen(Cores(s[..i]))
            else FirstSeen(Cores(s[..i])) + [s[i].core]
  {
    hide FirstSeen;
    assert Cores(s[..i + 1]) == Cores(s[..i]) + [s[i].core];
    FirstSeenSnoc(Cores(s[..i]), s[i].core);
  }

  /** The i-th virtual core is the first of its physical core. */
  predicate FirstOfCore(virtualCores: seq<Coord>, i: int) {
    0 <= i < |virtualCores| && forall j :: 0 <= j < i ==> virtualCores[j].core != virtualCores[i].core
  }

  ghost predicate IsFirst(virtualCores: seq<Coord>, c: Coord) {
    exists i :: FirstOfCore(virtualCores, i) && virtualCores[i] == c
  }

  /** An identifier that has been seen is not new. */
  lemma NotSeenYet(s: seq<Coord>, i: nat)
    requires i < |s| && s[i].core !in FirstSeen(Cores(s[..i]))
    ensures FirstOfCore(s, i)
  {
    hide FirstSeen;
    FirstSeenMembers(Cores(s[..i]));
    forall j | 0 <= j < i
      ensures s[j].core != s[i].core
    {
      assert Cores(s[..i])[j] == s[j].core;
    }
  }

  /** One virtual core for each physical core that occurs, the first that does. */
  method GetOneVirtualPerPhysical(virtualCores: seq<Coord>) returns (r: seq<Coord>)
    ensures Cores(r) == FirstSeen(Cores(virtualCores))
    ensures forall k :: 0 <= k < |r| ==> IsFirst(virtualCores, r[k])
  {
    hide FirstSeen;
    r := [];
    var i := 0;
    assert Cores(virtualCores[..0]) == [];
    FirstSeenNothing<nat>();
    while i < |virtualCores|
      invariant 0 <= i <= |virtualCores| && Cores(r) == FirstSeen(Cores(virtualCores[..i]))
      invariant forall k :: 0 <= k < |r| ==> IsFirst(virtualCores, r[k])
    {
      var vc := virtualCores[i];
      var found := false;
      var j := 0;
      while j < |r|
        invariant 0 <= j <= |r| && !found
        invariant forall k :: 0 <= k < j ==> Cores(r)[k] != vc.core
      {
        if r[j].core == vc.core {
          found := true;
          break;
        }
        j := j + 1;
      }
      assert found ==> Cores(r)[j] == vc.core;
      CoresSnoc(virtualCores, i);
      if !found {
        assert Cores(r + [vc]) == Cores(r) + [vc.core];
        assert vc.core !in Cores(r);
        NotSeenYet(virtualCores, i);
        r := r + [vc];
      }
      i := i + 1;
    }
    assert virtualCores[..i] == virtualCores;
  }

  /** Every virtual core belongs to the tree. */
  ghost predicate Within(cpus: seq<Cpu>, virtualCores: seq<Coord>) {
    forall i :: 0 <= i < |virtualCores| ==>
      exists c, j :: 0 <= c < |cpus| && 0 <= j < |cpus[c].physicalCores| &&
        cpus[c].physicalCores[j].id == virtualCores[i].core
  }

  /** The first physical core of the tree with its identifier. */
  ghost predicate IsFirstCore(cpus: seq<Cpu>, p: PhysicalCore) {
    exists c, j :: 0 <= c < |cpus| && 0 <= j < |cpus[c].physicalCores| && cpus[c].physicalCores[j] == p
      && NoneBefore(cpus, c, j, p.id)
  }

  ghost predicate NoneBefore(cpus: seq<Cpu>, c: nat, at: nat, id: nat) {
    forall i, j | 0 <= i < |cpus| && 0 <= j < |cpus[i].physicalCores| ::
      i < c || (i == c && j < at) ==> cpus[i].physicalCores[j].id != id
  }

  lemma FirstCoreAt(cpus: seq<Cpu>, c: nat, j: nat)
    requires c < |cpus| && j < |cpus[c].physicalCores| && NoneBefore(cpus, c, j, cpus[c].physicalCores[j].id)
    ensures IsFirstCore(cpus, cpus[c].physicalCores[j])
  {
  }

  /** The physical cores of some virtual cores, each once.  They agree one by one with
      what GetOneVirtualPerPhysical selects: both follow the same identifiers. */
  method VirtualToPhysical(cpus: seq<Cpu>, virtualCores: seq<Coord>) returns (r: seq<PhysicalCore>)
    requires Within(cpus, virtualCores)
    ensures Ids(r) == FirstSeen(Cores(virtualCores))
    ensures forall k :: 0 <= k < |r| ==> IsFirstCore(cpus, r[k])
  {
    hide FirstSeen, Unique, IsFirstCore, Keys;
    r := [];
    var i := 0;
    assert Cores(virtualCores[..0]) == [];
    FirstSeenNothing<nat>();
    while i < |virtualCores|
      invariant 0 <= i <= |virtualCores| && Ids(r) == FirstSeen(Cores(virtualCores[..i]))
      invariant forall k :: 0 <= k < |r| ==> IsFirstCore(cpus, r[k])
    {
      var found, c, at := GetPhysicalCore(cpus, virtualCores[i].core);
      var p := found.value;
      var contained := false;
      var j := 0;
      while j < |r|
        invariant 0 <= j <= |r| && !contained
        invariant forall k :: 0 <= k < j ==> Ids(r)[k] != p.id
      {
        if r[j].id == p.id {
          contained := true;
          break;
        }
        j := j + 1;
      }
      assert contained ==> Ids(r)[j] == p.id;
      CoresSnoc(virtualCores, i);
      if !contained {
        FirstCoreAt(cpus, c, at);
        assert Ids(r + [p]) == Ids(r) + [p.id];
        r := r + [p];
      }
      i := i + 1;
    }
    assert virtualCores[..i] == virtualCores;
  }
}
