/**
 Qualification planning: every test node goes to exactly one owner unit, and the plan and the
 handoff built from the units are accepted by the separately written validators.
 */
module QualificationPlans {
  import opened Base
  import opened Encoding

  type NodeId = Bytes
  type Identity = Hash32

  datatype Kind = ReleaseCorrectness | ProcessSensitive | EmpiricalBenchmark

  datatype Granularity = ByFile | Singleton

  datatype Class = Class(kind: Kind, preferred: Granularity)

  /** The repository's policy: correctness nodes are owned by file, the other kinds one by one. */
  predicate Allowed(c: Class) {
    c.kind == ReleaseCorrectness <==> c.preferred == ByFile
  }

  function KindText(k: Kind): Bytes {
    match k
    case ReleaseCorrectness => Encoding.Ascii("release-correctness:")
    case ProcessSensitive => Encoding.Ascii("process-sensitive:")
    case EmpiricalBenchmark => Encoding.Ascii("empirical-benchmark:")
  }

  const COLON: byte := 58

  /** `nodeid.split("::", 1)[0]`. */
  function NodeFile(n: NodeId): Bytes {
    if n == [] then []
    else if |n| > 1 && n[0] == COLON && n[1] == COLON then []
    else [n[0]] + NodeFile(n[1..])
  }

  const COLONS: Bytes := [COLON, COLON]

  /** Some `::` starts at this place. */
  predicate ColonsAt(n: Bytes, k: nat) {
    k + 1 < |n| && n[k] == COLON && n[k + 1] == COLON
  }

  /** The file of a node is what stands before its first `::`, and all of it if there is none. */
  lemma {:induction false} FileIsBeforeFirstColons(n: NodeId)
    ensures NodeFile(n) <= n
    ensures forall k: nat :: k < |NodeFile(n)| ==> !ColonsAt(n, k)
    ensures |NodeFile(n)| == |n| || ColonsAt(n, |NodeFile(n)|)
  {
    if n != [] && !ColonsAt(n, 0) {
      var rest := n[1..];
      FileIsBeforeFirstColons(rest);
      forall k: nat | k < |NodeFile(n)| ensures !ColonsAt(n, k) {
        if k > 0 {
          assert !ColonsAt(rest, k - 1);
        }
      }
    }
  }

  /** Nothing else has that property, so a file and a test joined by `::` give the file back. */
  lemma FileOfTest(f: Bytes, test: Bytes)
    requires forall k: nat :: k < |f| ==> !ColonsAt(f + COLONS, k)
    ensures NodeFile(f + COLONS + test) == f
    ensures NodeFile(f) == f
  {
    var n := f + COLONS + test;
    FileIsBeforeFirstColons(n);
    FileIsBeforeFirstColons(f);
    assert ColonsAt(n, |f|) && n[..|f|] == f;
    forall k: nat | k < |f| ensures !ColonsAt(n, k) && !ColonsAt(f, k) {
      assert !ColonsAt(f + COLONS, k);
    }
  }

  // ---------------------------------------------------------------- units

  /** A unit without its own identity. */
  datatype UnitBody = UnitBody(name: Bytes, kind: Kind, nodeids: seq<NodeId>, membership: Identity,
      classification: Identity, preferred: Granularity)

  datatype Unit = Unit(body: UnitBody, identity: Identity)

  datatype PlanBody = PlanBody(
    repository: Bytes, membership: Identity, classification: Identity, policy: Identity,
    unitCount: nat, nodeCount: nat, units: seq<Unit>)

  datatype Plan = Plan(body: PlanBody, identity: Identity)

  datatype Provenance = Provenance(repository: Bytes, membership: Identity, classification: Identity, policy: Identity,
      plan: Identity)

  datatype HandoffBody = HandoffBody(
    repository: Bytes, membership: Identity, classification: Identity, policy: Identity, plan: Identity,
    units: seq<Unit>, provenance: Provenance)

  datatype Handoff = Handoff(body: HandoffBody, identity: Identity)

  /** How payloads are hashed; membership identities depend on the set of nodes alone. */
  datatype Hashing = Hashing(members: set<NodeId> -> Identity, unit: UnitBody -> Identity, plan: PlanBody -> Identity,
      handoff: HandoffBody -> Identity)

  predicate Blank(n: NodeId) {
    forall b :: b in n ==> IsSpace(b)
  }

  /** `node_membership_identity`; `None` where it raises ValueError. */
  ghost function Membership(h: Hashing, nodes: seq<NodeId>): Option<Identity> {
    if nodes == [] || (exists n :: n in nodes && Blank(n))
        || !Distinct(nodes) then None else Some(h.members(Elements(nodes)))
  }

  type Classes = map<NodeId, Class>

  /** The name of the unit that owns a node. */
  function Owner(c: Classes, n: NodeId): Bytes
    requires n in c
  {
    KindText(c[n].kind) + if c[n].preferred == ByFile && c[n].kind == ReleaseCorrectness then NodeFile(n) else n
  }

  ghost predicate Classified(c: Classes, nodes: seq<NodeId>) {
    forall n :: n in nodes ==> n in c && Allowed(c[n])
  }

  /** The nodes owned under one name. */
  function Group(c: Classes, nodes: seq<NodeId>, name: Bytes): set<NodeId> {
    set n | n in nodes && n in c && Owner(c, n) == name
  }

  function Owners(c: Classes, nodes: seq<NodeId>): set<Bytes> {
    set n | n in nodes && n in c :: Owner(c, n)
  }

  /** Nodes under one name are one kind; they share a file, or are one and the same node. */
  lemma SameOwner(c: Classes, m: NodeId, n: NodeId)
    requires m in c && n in c && Allowed(c[m]) && Allowed(c[n]) && Owner(c, m) == Owner(c, n)
    ensures c[m] == c[n]
    ensures if c[m].preferred == ByFile then NodeFile(m) == NodeFile(n) else m == n
  {
    FirstLetter(c[m].kind);
    FirstLetter(c[n].kind);
    assert Owner(c, m)[0] == KindText(c[m].kind)[0] && Owner(c, n)[0] == KindText(c[n].kind)[0];
    var k := KindText(c[m].kind);
    assert Owner(c, m)[|k|..] == if c[m].preferred == ByFile then NodeFile(m) else m;
    assert Owner(c, n)[|k|..] == if c[n].preferred == ByFile then NodeFile(n) else n;
  }

  lemma FirstLetter(k: Kind)
    ensures |KindText(k)| > 0
    ensures KindText(k)[0] ==
            match k case ReleaseCorrectness => 114 case ProcessSensitive => 112 case EmpiricalBenchmark => 101
  {
  }

  /** `_unit_row`. */
  function UnitRow(h: Hashing, name: Bytes, kind: Kind, nodes: set<NodeId>, preferred: Granularity,
      classification: Identity): Unit {
    var body := UnitBody(name, kind, SortNames(nodes), h.members(nodes), classification, preferred);
    Unit(body, h.unit(body))
  }

  /** The unit that must exist under an owner's name. */
  function UnitOf(h: Hashing, c: Classes, classification: Identity, nodes: seq<NodeId>, n: NodeId): Unit
    requires n in c
  {
    UnitRow(h, Owner(c, n), c[n].kind, Group(c, nodes, Owner(c, n)), c[n].preferred, classification)
  }

  ghost predicate OwnerUnit(h: Hashing, c: Classes, classification: Identity, nodes: seq<NodeId>, u: Unit) {
    exists n :: n in nodes && n in c && u == UnitOf(h, c, classification, nodes, n)
  }

  function NamesOf(units: seq<Unit>): seq<Bytes> {
    seq(|units|, i requires 0 <= i < |units| => units[i].body.name)
  }

  /** Exactly one unit per owner, in name order. */
  ghost predicate OwnerUnits(h: Hashing, c: Classes, classification: Identity, nodes: seq<NodeId>, units: seq<Unit>) {
    && NamesOf(units) == SortNames(Owners(c, nodes))
    && forall u :: u in units ==> OwnerUnit(h, c, classification, nodes, u)
  }

  // ---------------------------------------------------------------- building them

  ghost predicate NamesDistinct(units: seq<Unit>) {
    forall i, j | 0 <= i < j < |units| :: units[i].body.name != units[j].body.name
  }

  function UnitNames(units: seq<Unit>): set<Bytes> {
    set u | u in units :: u.body.name
  }

  /** The nodes owned by a file. */
  function FileNodes(c: Classes, nodes: seq<NodeId>, file: Bytes): set<NodeId> {
    set n | n in nodes && n in c && c[n].preferred == ByFile && NodeFile(n) == file
  }

  function Files(c: Classes, nodes: seq<NodeId>): set<Bytes> {
    set n | n in nodes && n in c && c[n].preferred == ByFile :: NodeFile(n)
  }

  lemma GroupOf(c: Classes, nodes: seq<NodeId>, n: NodeId)
    requires Classified(c, nodes) && n in nodes
    ensures Group(c, nodes, Owner(c, n)) == if c[n].preferred == ByFile then FileNodes(c, nodes, NodeFile(n)) else {n}
  {
    forall m | m in nodes
      ensures Owner(c, m) == Owner(c, n) <==>
          if c[n].preferred == ByFile then m in FileNodes(c, nodes, NodeFile(n)) else m == n
    {
      if Owner(c, m) == Owner(c, n) {
        SameOwner(c, m, n);
      }
    }
  }

  /** The owner units of the nodes singled out so far, each once. */
  ghost predicate Singles(h: Hashing, c: Classes, classification: Identity, nodes: seq<NodeId>, i: nat,
      units: seq<Unit>)
    requires i <= |nodes|
  {
    && NamesDistinct(units)
    && (forall u :: u in units ==>
          exists n ::
            && n in nodes[..i] && n in c && c[n].preferred == Singleton
            && u == UnitOf(h, c, classification, nodes, n))
    && (forall n :: n in nodes[..i] && n in c && c[n].preferred == Singleton ==>
        UnitOf(h, c, classification, nodes, n) in units)
  }

  /** The unit of an earlier node is none of this one's. */
  lemma SingleIsOther(c: Classes, nodes: seq<NodeId>, i: nat, m: NodeId)
    requires i < |nodes| && Classified(c, nodes) && Distinct(nodes) && m in nodes[..i]
    requires c[m].preferred == Singleton && c[nodes[i]].preferred == Singleton
    ensures Owner(c, m) != Owner(c, nodes[i])
  {
    var k :| 0 <= k < i && nodes[k] == m;
    assert m in nodes && nodes[i] in nodes;
    if Owner(c, m) == Owner(c, nodes[i]) {
      SameOwner(c, m, nodes[i]);
    }
  }

  lemma NamesMore(units: seq<Unit>, unit: Unit)
    requires NamesDistinct(units) && forall u :: u in units ==> u.body.name != unit.body.name
    ensures NamesDistinct(units + [unit])
  {
  }

  lemma SinglesMore(h: Hashing, c: Classes, classification: Identity, nodes: seq<NodeId>, i: nat, units: seq<Unit>)
    requires i < |nodes| && Classified(c, nodes) && Distinct(nodes) && Singles(h, c, classification, nodes, i, units)
    ensures c[nodes[i]].preferred == ByFile ==> Singles(h, c, classification, nodes, i + 1, units)
    ensures c[nodes[i]].preferred == Singleton ==>
            Singles(h, c, classification, nodes, i + 1, units + [UnitOf(h, c, classification, nodes, nodes[i])])
  {
    var n := nodes[i];
    assert n in nodes && nodes[..i + 1] == nodes[..i] + [n];
    if c[n].preferred == Singleton {
      var unit := UnitOf(h, c, classification, nodes, n);
      forall u | u in units ensures u.body.name != unit.body.name {
        var m :| m in nodes[..i] && m in c && c[m].preferred == Singleton
            && u == UnitOf(h, c, classification, nodes, m);
        SingleIsOther(c, nodes, i, m);
      }
      NamesMore(units, unit);
    }
  }

  /** The nodes owned by file, gathered under their files. */
  ghost predicate Gathered(c: Classes, nodes: seq<NodeId>, ordinary: map<Bytes, set<NodeId>>) {
    ordinary.Keys == Files(c, nodes) && forall f :: f in ordinary ==> ordinary[f] == FileNodes(c, nodes, f)
  }

  lemma FilesMore(c: Classes, nodes: seq<NodeId>, n: NodeId)
    requires n in c
    ensures Files(c, nodes + [n]) == Files(c, nodes) + if c[n].preferred == ByFile then {NodeFile(n)} else {}
    ensures forall f :: FileNodes(c, nodes + [n], f) == FileNodes(c, nodes, f) + if c[n].preferred == ByFile
            && NodeFile(n) == f then {n} else {}
    ensures forall f :: f in Files(c, nodes) || FileNodes(c, nodes, f) == {}
  {
  }

  /** One node more gathered under its file. */
  lemma GatheredMore(c: Classes, nodes: seq<NodeId>, ordinary: map<Bytes, set<NodeId>>, n: NodeId)
    requires n in c && Gathered(c, nodes, ordinary)
    ensures c[n].preferred != ByFile ==> Gathered(c, nodes + [n], ordinary)
    ensures c[n].preferred == ByFile ==>
      Gathered(c, nodes + [n], ordinary[NodeFile(n) := (if NodeFile(n) in ordinary then ordinary[NodeFile(n)] else {}) +
          {n}])
  {
    FilesMore(c, nodes, n);
  }

  lemma OneMore(s: seq<Bytes>, i: nat)
    requires i < |s|
    ensures s[i] in s && s[..i + 1] == s[..i] + [s[i]]
  {
  }

  /** The first loop: units for single nodes at once, correctness nodes gathered by file. */
  method Gather(h: Hashing, c: Classes, classification: Identity, nodes: seq<NodeId>)
    returns (units: seq<Unit>, ordinary: map<Bytes, set<NodeId>>)
    requires Classified(c, nodes) && Distinct(nodes)
    ensures Singles(h, c, classification, nodes, |nodes|, units)
    ensures Gathered(c, nodes, ordinary)
  {
    units, ordinary := [], map[];
    for i := 0 to |nodes|
      invariant Singles(h, c, classification, nodes, i, units)
      invariant Gathered(c, nodes[..i], ordinary)
    {
      var n := nodes[i];
      OneMore(nodes, i);
      SinglesMore(h, c, classification, nodes, i, units);
      GatheredMore(c, nodes[..i], ordinary, n);
      if c[n].kind == ReleaseCorrectness && c[n].preferred == ByFile {
        var f := NodeFile(n);
        ordinary := ordinary[f := (if f in ordinary then ordinary[f] else {}) + {n}];
      } else {
        GroupOf(c, nodes, n);
        units := units + [UnitRow(h, KindText(c[n].kind) + n, c[n].kind, {n}, c[n].preferred, classification)];
      }
    }
    assert nodes[..|nodes|] == nodes;
  }

  lemma FileUnit(h: Hashing, c: Classes, classification: Identity, nodes: seq<NodeId>, f: Bytes) returns (n: NodeId)
    requires Classified(c, nodes) && f in Files(c, nodes)
    ensures n in nodes && n in c && c[n].preferred == ByFile && NodeFile(n) == f
    ensures UnitOf(h, c, classification, nodes, n) == UnitRow(h, KindText(ReleaseCorrectness) + f, ReleaseCorrectness,
            FileNodes(c, nodes, f), ByFile, classification)
  {
    n :| n in nodes && n in c && c[n].preferred == ByFile && NodeFile(n) == f;
    GroupOf(c, nodes, n);
  }

  /** The second loop: one unit per file, after the single nodes' units. */
  ghost predicate Owned(h: Hashing, c: Classes, classification: Identity, nodes: seq<NodeId>, done: seq<Bytes>,
      units: seq<Unit>) {
    && NamesDistinct(units)
    && (forall u :: u in units ==>
          && OwnerUnit(h, c, classification, nodes, u)
          && (u.body.preferred == ByFile ==>
                exists f :: f in done && u.body.name == KindText(ReleaseCorrectness) + f))
    && (forall n :: n in nodes && n in c && (c[n].preferred == ByFile ==> NodeFile(n) in done) ==>
        UnitOf(h, c, classification, nodes, n) in units)
  }

  /** A unit named after a file comes from the second loop. */
  lemma FileNameIsDone(h: Hashing, c: Classes, classification: Identity, nodes: seq<NodeId>, done: seq<Bytes>,
      units: seq<Unit>, u: Unit, f: Bytes)
    requires Classified(c, nodes) && Owned(h, c, classification, nodes, done, units) && u in units
    ensures u.body.name == KindText(ReleaseCorrectness) + f ==> f in done
  {
    if u.body.name == KindText(ReleaseCorrectness) + f {
      var m :| m in nodes && m in c && u == UnitOf(h, c, classification, nodes, m);
      FirstLetter(c[m].kind);
      FirstLetter(ReleaseCorrectness);
      assert u.body.name[0] == KindText(c[m].kind)[0] == KindText(ReleaseCorrectness)[0];
      var g :| g in done && u.body.name == KindText(ReleaseCorrectness) + g;
      assert u.body.name[|KindText(ReleaseCorrectness)|..] == g == f;
    }
  }

  lemma OwnedMore(h: Hashing, c: Classes, classification: Identity, nodes: seq<NodeId>, done: seq<Bytes>,
      units: seq<Unit>, f: Bytes)
    requires Classified(c, nodes) && Owned(h, c, classification, nodes, done, units) && f in Files(c, nodes)
            && f !in done
    ensures Owned(h, c, classification, nodes, done + [f],
      units + [UnitRow(h, KindText(ReleaseCorrectness) + f, ReleaseCorrectness, FileNodes(c, nodes, f), ByFile,
          classification)])
  {
    var n := FileUnit(h, c, classification, nodes, f);
    var row := UnitOf(h, c, classification, nodes, n);
    forall u | u in units ensures u.body.name != row.body.name {
      FileNameIsDone(h, c, classification, nodes, done, units, u, f);
    }
    forall m | m in nodes && m in c && (c[m].preferred == ByFile ==> NodeFile(m) in done + [f])
      ensures UnitOf(h, c, classification, nodes, m) in units + [row]
    {
      if c[m].preferred == ByFile && NodeFile(m) == f {
        GroupOf(c, nodes, m);
        GroupOf(c, nodes, n);
        assert UnitOf(h, c, classification, nodes, m) == row;
      }
    }
  }

  /** `sorted(units, key=name)`, for units with distinct names. */
  method SortUnits(units: seq<Unit>) returns (sorted: seq<Unit>)
    requires NamesDistinct(units)
    ensures NamesOf(sorted) == SortNames(UnitNames(units)) && forall u :: u in sorted <==> u in units
  {
    var names := SortNames(UnitNames(units));
    sorted := [];
    for i := 0 to |names|
      invariant |sorted| == i
      invariant forall k | 0 <= k < i :: sorted[k] in units && sorted[k].body.name == names[k]
    {
      assert names[i] in names;
      var u :| u in units && u.body.name == names[i];
      sorted := sorted + [u];
    }
    assert NamesOf(sorted) == names;
    forall u | u in units ensures u in sorted {
      assert u.body.name in names;
      var k :| 0 <= k < |names| && names[k] == u.body.name;
      assert sorted[k] == u;
    }
  }

  /** `_qualification_owner_units_from_classification`. */
  method BuildUnits(h: Hashing, c: Classes, classification: Identity, nodes: seq<NodeId>) returns (units: seq<Unit>)
    requires Classified(c, nodes) && Distinct(nodes)
    ensures OwnerUnits(h, c, classification, nodes, units)
  {
    var ordinary;
    units, ordinary := Gather(h, c, classification, nodes);
    var files := SortNames(ordinary.Keys);
    SinglesAreOwned(h, c, classification, nodes, units);
    for i := 0 to |files|
      invariant Owned(h, c, classification, nodes, files[..i], units)
    {
      OneMore(files, i);
      NotBefore(files, i);
      OwnedMore(h, c, classification, nodes, files[..i], units, files[i]);
      units := units + [UnitRow(h, KindText(ReleaseCorrectness) + files[i], ReleaseCorrectness, ordinary[files[i]],
          ByFile, classification)];
    }
    assert files[..|files|] == files;
    AllOwned(h, c, classification, nodes, files, units);
    units := SortUnits(units);
  }

  lemma NotBefore(names: seq<Name>, i: nat)
    requires StrictlySorted(names) && i < |names|
    ensures names[i] !in names[..i]
  {
    forall j | 0 <= j < i ensures names[j] != names[i] {
      LexTotal(names[j], names[i]);
    }
  }

  lemma SinglesAreOwned(h: Hashing, c: Classes, classification: Identity, nodes: seq<NodeId>, units: seq<Unit>)
    requires Classified(c, nodes) && Singles(h, c, classification, nodes, |nodes|, units)
    ensures Owned(h, c, classification, nodes, [], units)
  {
    assert nodes[..|nodes|] == nodes;
  }

  lemma AllOwned(h: Hashing, c: Classes, classification: Identity, nodes: seq<NodeId>, files: seq<Bytes>,
      units: seq<Unit>)
    requires Classified(c, nodes) && Owned(h, c, classification, nodes, files, units)
            && forall f :: f in Files(c, nodes) ==> f in files
    ensures UnitNames(units) == Owners(c, nodes)
  {
    forall n | n in nodes ensures Owner(c, n) in UnitNames(units) {
      assert UnitOf(h, c, classification, nodes, n) in units;
    }
  }

  // ---------------------------------------------------------------- the partition

  lemma UnitNodes(h: Hashing, c: Classes, classification: Identity, nodes: seq<NodeId>, u: Unit, n: NodeId)
    requires Classified(c, nodes) && OwnerUnit(h, c, classification, nodes, u)
    ensures n in u.body.nodeids <==> n in nodes && Owner(c, n) == u.body.name
    ensures StrictlySorted(u.body.nodeids) && u.body.nodeids != []
  {
    var m :| m in nodes && m in c && u == UnitOf(h, c, classification, nodes, m);
    assert m in Group(c, nodes, Owner(c, m));
  }

  lemma UnitAt(h: Hashing, c: Classes, classification: Identity, nodes: seq<NodeId>, units: seq<Unit>, name: Bytes)
    returns (i: nat)
    requires OwnerUnits(h, c, classification, nodes, units) && name in Owners(c, nodes)
    ensures i < |units| && units[i].body.name == name
  {
    var names := NamesOf(units);
    assert name in SortNames(Owners(c, nodes));
    i :| 0 <= i < |names| && names[i] == name;
  }

  /** Every node is in exactly one unit, and units hold nothing else. */
  lemma UnitsPartitionNodes(h: Hashing, c: Classes, classification: Identity, nodes: seq<NodeId>, units: seq<Unit>,
      n: NodeId)
    requires Classified(c, nodes) && OwnerUnits(h, c, classification, nodes, units)
    ensures n in nodes <==> exists i | 0 <= i < |units| :: n in units[i].body.nodeids
    ensures forall i, j | 0 <= i < |units| && 0 <= j < |units| ::
              n in units[i].body.nodeids && n in units[j].body.nodeids ==> i == j
  {
    forall i | 0 <= i < |units|
      ensures n in units[i].body.nodeids <==> n in nodes && Owner(c, n) == units[i].body.name
    {
      UnitNodes(h, c, classification, nodes, units[i], n);
    }
    if n in nodes {
      var i := UnitAt(h, c, classification, nodes, units, Owner(c, n));
    }
    forall i, j | 0 <= i < j < |units| ensures units[i].body.name != units[j].body.name {
      assert NamesOf(units)[i] == units[i].body.name && NamesOf(units)[j] == units[j].body.name;
      LexTotal(units[i].body.name, units[j].body.name);
    }
  }

  /** Two tests of one file, classified by file, are in one unit, which has the file's name. */
  lemma TestsOfOneFile(h: Hashing, c: Classes, classification: Identity, nodes: seq<NodeId>, units: seq<Unit>,
      f: Bytes, a: Bytes, b: Bytes)
    requires Classified(c, nodes) && OwnerUnits(h, c, classification, nodes, units)
    requires forall k: nat :: k < |f| ==> !ColonsAt(f + COLONS, k)
    requires f + COLONS + a in nodes && f + COLONS + b in nodes
    requires c[f + COLONS + a].preferred == ByFile && c[f + COLONS + b].preferred == ByFile
    ensures exists u ::
              && u in units && u.body.name == Encoding.Ascii("release-correctness:") + f
              && f + COLONS + a in u.body.nodeids && f + COLONS + b in u.body.nodeids
  {
    FileOfTest(f, a);
    FileOfTest(f, b);
    var name := Owner(c, f + COLONS + a);
    var i := UnitAt(h, c, classification, nodes, units, name);
    UnitNodes(h, c, classification, nodes, units[i], f + COLONS + a);
    UnitNodes(h, c, classification, nodes, units[i], f + COLONS + b);
    assert units[i] in units;
  }

  /** A node classified alone is in a unit of its own, named after its kind and itself. */
  lemma SingletonsAreAlone(h: Hashing, c: Classes, classification: Identity, nodes: seq<NodeId>, units: seq<Unit>,
      n: NodeId)
    requires Classified(c, nodes) && OwnerUnits(h, c, classification, nodes, units)
    requires n in nodes && c[n].preferred == Singleton
    ensures exists u ::
              && u in units && u.body.nodeids == [n]
              && u.body.name == (if c[n].kind == ProcessSensitive then Encoding.Ascii("process-sensitive:")
                                 else Encoding.Ascii("empirical-benchmark:")) + n
  {
    var i := UnitAt(h, c, classification, nodes, units, Owner(c, n));
    GroupOf(c, nodes, n);
    forall m ensures m in units[i].body.nodeids <==> m in [n] {
      UnitNodes(h, c, classification, nodes, units[i], m);
    }
    UnitNodes(h, c, classification, nodes, units[i], n);
    StrictlySortedUnique(units[i].body.nodeids, [n]);
    assert units[i] in units;
  }

  function AllNodes(units: seq<Unit>): seq<NodeId> {
    if units == [] then [] else AllNodes(units[..|units| - 1]) + units[|units| - 1].body.nodeids
  }

  lemma {:induction false} AllNodesIn(units: seq<Unit>, n: NodeId)
    ensures n in AllNodes(units) <==> exists i | 0 <= i < |units| :: n in units[i].body.nodeids
    decreases |units|
  {
    if units != [] {
      AllNodesIn(units[..|units| - 1], n);
      assert forall i | 0 <= i < |units| - 1 :: units[..|units| - 1][i] == units[i];
    }
  }

  ghost predicate Disjoint(units: seq<Unit>) {
    forall i, j, n :: 0 <= i < j < |units| && n in units[i].body.nodeids ==> n !in units[j].body.nodeids
  }

  lemma {:induction false} AllNodesDistinct(units: seq<Unit>)
    requires Disjoint(units) && forall u :: u in units ==> StrictlySorted(u.body.nodeids)
    ensures Distinct(AllNodes(units))
    decreases |units|
  {
    if units != [] {
      var front, last := units[..|units| - 1], units[|units| - 1];
      assert forall i | 0 <= i < |front| :: front[i] == units[i];
      AllNodesDistinct(front);
      forall n | n in last.body.nodeids ensures n !in AllNodes(front) {
        AllNodesIn(front, n);
      }
      SortedIsDistinct(last.body.nodeids);
      DistinctConcat(AllNodes(front), last.body.nodeids);
    }
  }

  lemma SortedIsDistinct(s: seq<Name>)
    requires StrictlySorted(s)
    ensures Distinct(s)
  {
    forall i, j | 0 <= i < j < |s| ensures s[i] != s[j] {
      LexTotal(s[i], s[j]);
    }
  }

  lemma DistinctConcat(a: seq<NodeId>, b: seq<NodeId>)
    requires Distinct(a) && Distinct(b) && forall n :: n in b ==> n !in a
    ensures Distinct(a + b)
  {
    forall i, j | 0 <= i < j < |a + b| ensures (a + b)[i] != (a + b)[j] {
      if i < |a| <= j {
        assert b[j - |a|] in b && a[i] in a;
      }
    }
  }

  /** The nodes of all units together are the classified nodes, each once. */
  lemma AllNodesAreNodes(h: Hashing, c: Classes, classification: Identity, nodes: seq<NodeId>, units: seq<Unit>)
    requires Classified(c, nodes) && OwnerUnits(h, c, classification, nodes, units)
    ensures Elements(AllNodes(units)) == Elements(nodes) && Distinct(AllNodes(units))
  {
    forall n ensures n in AllNodes(units) <==> n in nodes {
      AllNodesIn(units, n);
      UnitsPartitionNodes(h, c, classification, nodes, units, n);
    }
    forall i, j, n | 0 <= i < j < |units| && n in units[i].body.nodeids ensures n !in units[j].body.nodeids {
      UnitsPartitionNodes(h, c, classification, nodes, units, n);
    }
    forall u | u in units ensures StrictlySorted(u.body.nodeids) {
      UnitNodes(h, c, classification, nodes, u, []);
    }
    AllNodesDistinct(units);
  }
}
