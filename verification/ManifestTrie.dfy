/**
 The synthetic tree of one input manifest: insertion of selected paths, exact
 invalidation, and what it means for its cached nodes to be trustworthy.
 */
module ManifestTrie {
  import opened Base
  import opened Encoding
  import opened MerkleSpec

  // ---------------------------------------------------------------- the trie

  datatype Trie = Trie(
    segment: Name,
    terminal: Option<Path>,
    children: map<Name, Trie>,
    cachedNode: Option<Node>,
    cachedDigest: Option<Digest>,
    dirty: bool)

  function NewTrie(segment: Name): Trie {
    Trie(segment, None, map[], None, None, true)
  }

  function InsertAt(t: Trie, rel: Path, parts: Path): Trie
    decreases |parts|
  {
    if parts == [] then t.(terminal := Some(rel), children := map[], dirty := true)
    else if t.terminal.Some? then t
    else
      var child := if parts[0] in t.children then t.children[parts[0]] else NewTrie(parts[0]);
      t.(children := t.children[parts[0] := InsertAt(child, rel, parts[1..])])
  }

  function InsertAll(t: Trie, paths: seq<Path>): Trie
    decreases |paths|
  {
    if paths == [] then t else InsertAll(InsertAt(t, paths[0], paths[0]), paths[1..])
  }

  function MarkSubtree(t: Trie): Trie {
    t.(dirty := true, children := map n | n in t.children :: MarkSubtree(t.children[n]))
  }

  /** Walk towards the dirty path; `None` means no selected path can depend on it. */
  function InvalidateAt(t: Trie, parts: Path): Option<Trie>
    decreases |parts|
  {
    if parts == [] then
      if t.terminal.None? && t.children == map[] then None else Some(MarkSubtree(t))
    else if t.terminal.Some? then Some(t.(dirty := true))
    else if parts[0] !in t.children then None
    else
      match InvalidateAt(t.children[parts[0]], parts[1..])
      case None => None
      case Some(c) => Some(t.(dirty := true, children := t.children[parts[0] := c]))
  }

  /** Every trie node sits at its own path, and a terminal has nothing below it. */
  ghost predicate Placed(t: Trie, pos: Path) {
    && (t.terminal.Some? ==> t.terminal.value == pos && t.children == map[])
    && forall n | n in t.children :: t.children[n].segment == n && Placed(t.children[n], pos + [n])
  }

  // ---------------------------------------------------------------- shape and cold value

  /** A trie without its caches. */
  datatype Shape = Leaf(rel: Path) | Branch(children: map<Name, Shape>)

  function ShapeOf(t: Trie): Shape {
    if t.terminal.Some? then Leaf(t.terminal.value)
    else Branch(map n | n in t.children :: ShapeOf(t.children[n]))
  }

  lemma ChildShapeSmaller(t: Trie, n: Name)
    requires t.terminal.None? && n in t.children
    ensures ShapeOf(t.children[n]) < ShapeOf(t)
  {
    var s := ShapeOf(t);
    assert s.children[n] == ShapeOf(t.children[n]) && s.children[n] < s;
  }

  function Terminals(s: Shape): set<Path> {
    match s
    case Leaf(rel) => {rel}
    case Branch(children) => set n, p | n in children && p in Terminals(children[n]) :: p
  }

  /** The shape with the current visible tree at each selected path. */
  function Resolve(r: Rules, fs: Tree, s: Shape): Option<VTree>
    decreases s
  {
    match s
    case Leaf(rel) => if Excluded(r, rel) then None else VisibleAt(r, fs, rel)
    case Branch(children) =>
      if exists n :: n in children && Resolve(r, fs, children[n]).None? then None
      else Some(VDir(true, map n | n in children :: Resolve(r, fs, children[n]).value))
  }

  function ColdShape(r: Rules, fs: Tree, s: Shape, name: Name): Option<Node> {
    match Resolve(r, fs, s)
    case None => None
    case Some(v) => NodeOf(r.sha, v, name)
  }

  function ColdRoot(r: Rules, fs: Tree, s: Shape): Option<Digest>
    requires s.Branch?
  {
    match Resolve(r, fs, s)
    case None => None
    case Some(v) => LevelDigest(r.sha, InputRootDomain, v)
  }

  function ManifestShape(paths: seq<Path>): (s: Shape)
    ensures (forall p :: p in paths ==> p != []) ==> s.Branch?
  {
    RootStaysInner(NewTrie([]), paths);
    ShapeOf(InsertAll(NewTrie([]), paths))
  }

  lemma {:induction false} RootStaysInner(t: Trie, paths: seq<Path>)
    requires t.terminal.None?
    ensures (forall p :: p in paths ==> p != []) ==> InsertAll(t, paths).terminal.None?
    decreases |paths|
  {
    if paths != [] && forall p :: p in paths ==> p != [] {
      assert paths[0] in paths && forall p :: p in paths[1..] ==> p in paths;
      RootStaysInner(InsertAt(t, paths[0], paths[0]), paths[1..]);
    }
  }

  // ---------------------------------------------------------------- time

  /** From `fs` to `gs` only paths in `e` changed their own entry, and nothing in `d` was forgotten. */
  ghost predicate Later(fs: Tree, d: set<Path>, gs: Tree, e: set<Path>) {
    d <= e && forall p :: Own(fs, p) != Own(gs, p) ==> p in e
  }

  /** Some reported, identity-relevant path lies at or below `rel`. */
  ghost predicate Covered(r: Rules, d: set<Path>, rel: Path) {
    exists p :: p in d && !Excluded(r, p) && rel <= p
  }

  ghost predicate ShapeCovered(r: Rules, d: set<Path>, s: Shape) {
    exists rel :: rel in Terminals(s) && Covered(r, d, rel)
  }

  lemma VisibleLater(r: Rules, fs: Tree, d: set<Path>, gs: Tree, e: set<Path>, rel: Path)
    requires Later(fs, d, gs, e) && !Covered(r, e, rel) && !Excluded(r, rel)
    ensures VisibleAt(r, fs, rel) == VisibleAt(r, gs, rel)
    ensures Own(fs, rel) == Own(gs, rel)
  {
    VisibleIsLocal(r, fs, gs, rel);
  }

  lemma {:induction false} ResolveLater(r: Rules, fs: Tree, d: set<Path>, gs: Tree, e: set<Path>, s: Shape)
    requires Later(fs, d, gs, e) && !ShapeCovered(r, e, s)
    ensures Resolve(r, fs, s) == Resolve(r, gs, s)
    decreases s
  {
    match s
    case Leaf(rel) =>
      assert rel in Terminals(s);
      if !Excluded(r, rel) {
        VisibleLater(r, fs, d, gs, e, rel);
      }
    case Branch(children) =>
      forall n | n in children ensures Resolve(r, fs, children[n]) == Resolve(r, gs, children[n]) {
        assert forall rel :: rel in Terminals(children[n]) ==> rel in Terminals(s);
        ResolveLater(r, fs, d, gs, e, children[n]);
      }
      if Resolve(r, fs, s).Some? {
        assert Resolve(r, fs, s).value.children == Resolve(r, gs, s).value.children;
      }
  }

  // ---------------------------------------------------------------- trust

  /**
   A clean node's cache is the cold value, unless a path in `d` still has to be replayed
   against it; and nothing below a clean inner node is dirty.
   */
  ghost predicate TrieSound(r: Rules, fs: Tree, d: set<Path>, t: Trie) {
    && (!t.dirty && t.terminal.Some? ==> t.cachedNode.Some? && NodeTrusted(r, fs, d, t, t.cachedNode.value))
    && (!t.dirty && t.terminal.None? ==>
          && t.cachedDigest.Some?
          && NodeTrusted(r, fs, d, t, DirNode(t.segment, t.cachedDigest.value))
          && forall n | n in t.children :: !t.children[n].dirty)
    && (t.terminal.None? ==> forall n | n in t.children :: TrieSound(r, fs, d, t.children[n]))
  }

  ghost predicate NodeTrusted(r: Rules, fs: Tree, d: set<Path>, t: Trie, node: Node) {
    ShapeCovered(r, d, ShapeOf(t)) || ColdShape(r, fs, ShapeOf(t), t.segment) == Some(node)
  }

  lemma ChildCoverage(r: Rules, d: set<Path>, t: Trie, n: Name)
    requires t.terminal.None? && n in t.children
    ensures Terminals(ShapeOf(t.children[n])) <= Terminals(ShapeOf(t))
    ensures ShapeCovered(r, d, ShapeOf(t.children[n])) ==> ShapeCovered(r, d, ShapeOf(t))
  {
    assert ShapeOf(t).children[n] == ShapeOf(t.children[n]);
  }

  lemma CoverageGrows(r: Rules, d: set<Path>, e: set<Path>, s: Shape)
    requires d <= e
    ensures ShapeCovered(r, d, s) ==> ShapeCovered(r, e, s)
  {
    if ShapeCovered(r, d, s) {
      var rel :| rel in Terminals(s) && Covered(r, d, rel);
      assert Covered(r, e, rel);
    }
  }

  /** The environment may move on: soundness survives as long as every change is reported. */
  lemma {:induction false} TrieLater(r: Rules, fs: Tree, d: set<Path>, gs: Tree, e: set<Path>, t: Trie)
    requires TrieSound(r, fs, d, t) && Later(fs, d, gs, e)
    ensures TrieSound(r, gs, e, t)
    decreases t
  {
    if !ShapeCovered(r, e, ShapeOf(t)) {
      CoverageGrows(r, d, e, ShapeOf(t));
      ResolveLater(r, fs, d, gs, e, ShapeOf(t));
    }
    forall n | n in t.children && t.terminal.None? ensures TrieSound(r, gs, e, t.children[n]) {
      TrieLater(r, fs, d, gs, e, t.children[n]);
    }
  }

  lemma {:induction false} MarkedIsSound(r: Rules, fs: Tree, d: set<Path>, t: Trie)
    ensures TrieSound(r, fs, d, MarkSubtree(t))
    ensures ShapeOf(MarkSubtree(t)) == ShapeOf(t)
    ensures forall pos :: Placed(t, pos) ==> Placed(MarkSubtree(t), pos)
    decreases t
  {
    forall n | n in t.children
      ensures TrieSound(r, fs, d, MarkSubtree(t.children[n]))
      ensures ShapeOf(MarkSubtree(t.children[n])) == ShapeOf(t.children[n])
      ensures forall pos :: Placed(t.children[n], pos) ==> Placed(MarkSubtree(t.children[n]), pos)
    {
      MarkedIsSound(r, fs, d, t.children[n]);
    }
    assert MarkSubtree(t).children.Keys == t.children.Keys;
    if t.terminal.None? {
      assert ShapeOf(MarkSubtree(t)).children == ShapeOf(t).children;
    }
  }

  /** A path below no selected path is irrelevant to the trie's value. */
  lemma {:induction false} IrrelevantPath(r: Rules, fs: Tree, d: set<Path>, p: Path, t: Trie)
    requires TrieSound(r, fs, d + {p}, t)
    requires forall rel :: rel in Terminals(ShapeOf(t)) ==> !(rel <= p)
    ensures TrieSound(r, fs, d, t)
    decreases t
  {
    if ShapeCovered(r, d + {p}, ShapeOf(t)) {
      var rel :| rel in Terminals(ShapeOf(t)) && Covered(r, d + {p}, rel);
      assert Covered(r, d, rel);
    }
    forall n | n in t.children && t.terminal.None? ensures TrieSound(r, fs, d, t.children[n]) {
      ChildCoverage(r, d, t, n);
      IrrelevantPath(r, fs, d, p, t.children[n]);
    }
  }

  lemma ForkedPaths(pos: Path, n: Name, rel: Path, step: Name, p: Path)
    requires n != step && pos + [n] <= rel && pos + [step] <= p
    ensures !(rel <= p)
  {
    assert rel[|pos|] == (pos + [n])[|pos|] == n;
    assert p[|pos|] == (pos + [step])[|pos|] == step;
  }

  /** The walk gives up only when no selected path lies at or above the dirty one. */
  lemma {:induction false} MissMeansIrrelevant(t: Trie, pos: Path, parts: Path)
    requires Placed(t, pos) && InvalidateAt(t, parts).None?
    ensures forall rel :: rel in Terminals(ShapeOf(t)) ==> !(rel <= pos + parts)
    decreases |parts|
  {
    if parts != [] {
      forall rel | rel in Terminals(ShapeOf(t)) ensures !(rel <= pos + parts) {
        var n :| n in t.children && rel in Terminals(ShapeOf(t).children[n]);
        assert ShapeOf(t).children[n] == ShapeOf(t.children[n]);
        assert pos + parts == (pos + [parts[0]]) + parts[1..];
        if n == parts[0] {
          MissMeansIrrelevant(t.children[n], pos + [n], parts[1..]);
        } else {
          TerminalsBelow(t.children[n], pos + [n], rel);
          ForkedPaths(pos, n, rel, parts[0], pos + parts);
        }
      }
    }
  }

  /**
   Replaying a dirty path repairs the trie: afterwards nothing has to be trusted less
   because of that path, wherever the walk stops.
   */
  lemma {:induction false} InvalidateRepairs(r: Rules, fs: Tree, d: set<Path>, t: Trie, pos: Path, parts: Path)
    requires Placed(t, pos) && TrieSound(r, fs, d + {pos + parts}, t)
    ensures InvalidateAt(t, parts).None? ==> TrieSound(r, fs, d, t)
    ensures InvalidateAt(t, parts).Some? ==>
              var u := InvalidateAt(t, parts).value;
              TrieSound(r, fs, d, u) && Placed(u, pos) && ShapeOf(u) == ShapeOf(t) && u.dirty && u.segment == t.segment
    decreases |parts|
  {
    if InvalidateAt(t, parts).None? {
      MissMeansIrrelevant(t, pos, parts);
      IrrelevantPath(r, fs, d, pos + parts, t);
    } else if parts == [] {
      MarkedIsSound(r, fs, d, t);
    } else if t.terminal.None? {
      var n, u := parts[0], InvalidateAt(t, parts).value;
      assert pos + parts == (pos + [n]) + parts[1..];
      InvalidateRepairs(r, fs, d, t.children[n], pos + [n], parts[1..]);
      SiblingsUnaffected(r, fs, d, pos + parts, t, pos, n);
      ReplacedChild(r, fs, d, t, pos, n, u.children[n]);
    }
  }

  lemma ReplacedChild(r: Rules, fs: Tree, d: set<Path>, t: Trie, pos: Path, n: Name, c: Trie)
    requires Placed(t, pos) && t.terminal.None? && n in t.children
    requires forall m | m in t.children && m != n :: TrieSound(r, fs, d, t.children[m])
    requires TrieSound(r, fs, d, c) && Placed(c, pos + [n]) && ShapeOf(c) == ShapeOf(t.children[n]) && c.segment == n
    ensures var u := t.(dirty := true, children := t.children[n := c]);
            TrieSound(r, fs, d, u) && Placed(u, pos) && ShapeOf(u) == ShapeOf(t)
  {
    var u := t.(dirty := true, children := t.children[n := c]);
    assert u.children.Keys == t.children.Keys;
    assert ShapeOf(u).children == ShapeOf(t).children;
  }

  /** Storing a child back after reading it, without touching its parent's own flags. */
  lemma StoredChild(r: Rules, fs: Tree, d: set<Path>, t: Trie, pos: Path, n: Name, c: Trie)
    requires Placed(t, pos) && t.terminal.None? && n in t.children && TrieSound(r, fs, d, t)
    requires TrieSound(r, fs, d, c) && Placed(c, pos + [n]) && ShapeOf(c) == ShapeOf(t.children[n]) && c.segment == n
    requires c.dirty ==> t.children[n].dirty
    ensures var u := t.(children := t.children[n := c]);
            TrieSound(r, fs, d, u) && Placed(u, pos) && ShapeOf(u) == ShapeOf(t)
  {
    ReplacedChild(r, fs, d, t, pos, n, c);
    assert ShapeOf(t.(children := t.children[n := c])) == ShapeOf(t.(dirty := true, children := t.children[n := c]));
  }

  /** Children off the dirty path do not depend on it. */
  lemma SiblingsUnaffected(r: Rules, fs: Tree, d: set<Path>, p: Path, t: Trie, pos: Path, step: Name)
    requires pos + [step] <= p && Placed(t, pos) && t.terminal.None?
    requires TrieSound(r, fs, d + {p}, t)
    ensures forall n | n in t.children && n != step :: TrieSound(r, fs, d, t.children[n])
  {
    forall n | n in t.children && n != step ensures TrieSound(r, fs, d, t.children[n]) {
      forall rel | rel in Terminals(ShapeOf(t.children[n])) ensures !(rel <= p) {
        TerminalsBelow(t.children[n], pos + [n], rel);
        ForkedPaths(pos, n, rel, step, p);
      }
      IrrelevantPath(r, fs, d, p, t.children[n]);
    }
  }

  lemma {:induction false} TerminalsBelow(t: Trie, pos: Path, rel: Path)
    requires Placed(t, pos) && rel in Terminals(ShapeOf(t))
    ensures pos <= rel
    decreases t
  {
    if t.terminal.None? {
      var n :| n in t.children && rel in Terminals(ShapeOf(t).children[n]);
      TerminalsBelow(t.children[n], pos + [n], rel);
      assert pos <= pos + [n];
    }
  }

  // ---------------------------------------------------------------- building

  lemma {:induction false} InsertKeepsTrie(t: Trie, pos: Path, rel: Path, parts: Path)
    requires Placed(t, pos) && rel == pos + parts
    ensures Placed(InsertAt(t, rel, parts), pos)
    ensures AllDirty(t) ==> AllDirty(InsertAt(t, rel, parts))
    ensures InsertAt(t, rel, parts).segment == t.segment
    decreases |parts|
  {
    if parts != [] && t.terminal.None? {
      var child := if parts[0] in t.children then t.children[parts[0]] else NewTrie(parts[0]);
      assert rel == (pos + [parts[0]]) + parts[1..];
      InsertKeepsTrie(child, pos + [parts[0]], rel, parts[1..]);
    }
  }

  ghost predicate AllDirty(t: Trie) {
    t.dirty && forall n | n in t.children :: AllDirty(t.children[n])
  }

  /** The selected paths a read has to look at: all of them, or those below dirty nodes only. */
  function TerminalsToRead(t: Trie, dirtyOnly: bool): (found: set<Path>)
    ensures found <= Terminals(ShapeOf(t))
  {
    if dirtyOnly && !t.dirty then {}
    else if t.terminal.Some? then {t.terminal.value}
    else
      assert forall n | n in t.children :: ShapeOf(t).children[n] == ShapeOf(t.children[n]);
      set n, p | n in t.children && p in TerminalsToRead(t.children[n], dirtyOnly) :: p
  }

  lemma {:induction false} AllToRead(t: Trie)
    ensures TerminalsToRead(t, false) == Terminals(ShapeOf(t))
    decreases t
  {
    if t.terminal.None? {
      forall n | n in t.children
        ensures ShapeOf(t).children[n] == ShapeOf(t.children[n])
        ensures TerminalsToRead(t.children[n], false) == Terminals(ShapeOf(t.children[n]))
      {
        AllToRead(t.children[n]);
      }
    }
  }

  /** Every node from here down to a place is dirty. */
  predicate DirtyDown(t: Trie, parts: Path)
    decreases |parts|
  {
    t.dirty && (parts != [] && parts[0] in t.children ==> DirtyDown(t.children[parts[0]], parts[1..]))
  }

  /** To verify, every selected path is looked at; otherwise exactly those below dirty nodes only. */
  lemma {:induction false} TerminalsReadExactly(t: Trie, pos: Path, parts: Path, dirtyOnly: bool)
    requires Placed(t, pos)
    ensures pos + parts in TerminalsToRead(t, dirtyOnly) <==>
            pos + parts in Terminals(ShapeOf(t)) && (dirtyOnly ==> DirtyDown(t, parts))
    decreases |parts|
  {
    if t.terminal.None? {
      forall n | n in t.children && (parts == [] || n != parts[0])
        ensures pos + parts !in Terminals(ShapeOf(t.children[n]))
      {
        forall rel | rel in Terminals(ShapeOf(t.children[n])) ensures rel != pos + parts {
          TerminalsBelow(t.children[n], pos + [n], rel);
          assert rel[|pos|] == n;
        }
      }
      assert forall n | n in t.children :: ShapeOf(t).children[n] == ShapeOf(t.children[n]);
      if parts != [] && parts[0] in t.children {
        TerminalsReadExactly(t.children[parts[0]], pos + [parts[0]], parts[1..], dirtyOnly);
        assert pos + parts == (pos + [parts[0]]) + parts[1..];
      }
    }
  }

  // ---------------------------------------------------------------- assembling a level

  /** The nodes of one trie level, unless a path in `d` still affects it. */
  ghost predicate LevelAnswer(r: Rules, fs: Tree, d: set<Path>, s: Shape, nodes: Option<seq<Node>>)
    requires s.Branch?
  {
    ShapeCovered(r, d, s) || match Resolve(r, fs, s)
      case None => nodes == None
      case Some(v) => NodesOf(r.sha, v, SortNames(v.children.Keys)) == nodes
  }

  ghost predicate ShapesMatch(r: Rules, fs: Tree, d: set<Path>, s: Shape, names: seq<Name>, nodes: seq<Node>)
    requires |nodes| == |names| && NamesIn(s, names)
  {
    forall k | 0 <= k < |nodes| ::
      ShapeCovered(r, d, s.children[names[k]]) || ColdShape(r, fs, s.children[names[k]], names[k]) == Some(nodes[k])
  }

  ghost predicate NamesIn(s: Shape, names: seq<Name>) {
    s.Branch? && forall n :: n in names ==> n in s.children
  }

  lemma ShapesMatchCons(r: Rules, fs: Tree, d: set<Path>, s: Shape, names: seq<Name>, node: Node, rest: seq<Node>)
    requires names != [] && NamesIn(s, names) && |rest| == |names| - 1
    requires ShapeCovered(r, d, s.children[names[0]]) || ColdShape(r, fs, s.children[names[0]], names[0]) == Some(node)
    requires ShapesMatch(r, fs, d, s, names[1..], rest)
    ensures ShapesMatch(r, fs, d, s, names, [node] + rest)
  {
    forall k | 0 <= k < |names|
      ensures ShapeCovered(r, d, s.children[names[k]])
              || ColdShape(r, fs, s.children[names[k]], names[k]) == Some(([node] + rest)[k])
    {
      if k > 0 {
        assert names[k] == names[1..][k - 1] && ([node] + rest)[k] == rest[k - 1];
      }
    }
  }

  lemma ChildShapeCovers(r: Rules, d: set<Path>, s: Shape, n: Name)
    requires s.Branch? && n in s.children
    ensures ShapeCovered(r, d, s.children[n]) ==> ShapeCovered(r, d, s)
  {
    assert forall rel :: rel in Terminals(s.children[n]) ==> rel in Terminals(s);
  }

  lemma LevelAssembled(r: Rules, fs: Tree, d: set<Path>, s: Shape, nodes: seq<Node>)
    requires s.Branch? && |nodes| == |SortNames(s.children.Keys)|
    requires ShapesMatch(r, fs, d, s, SortNames(s.children.Keys), nodes)
    ensures LevelAnswer(r, fs, d, s, Some(nodes))
  {
    var names := SortNames(s.children.Keys);
    if !ShapeCovered(r, d, s) {
      forall k | 0 <= k < |names|
        ensures ColdShape(r, fs, s.children[names[k]], names[k]) == Some(nodes[k])
      {
        ChildShapeCovers(r, d, s, names[k]);
      }
      ColdLevelNodes(r, fs, s, nodes);
    }
  }

  /** A level whose children all resolve resolves to their visible trees. */
  lemma LevelResolves(r: Rules, fs: Tree, s: Shape)
    requires s.Branch? && forall n | n in s.children :: Resolve(r, fs, s.children[n]).Some?
    ensures Resolve(r, fs, s).Some? && Resolve(r, fs, s).value.VDir?
            && Resolve(r, fs, s).value.children.Keys == s.children.Keys
    ensures forall n | n in s.children :: Resolve(r, fs, s).value.children[n] == Resolve(r, fs, s.children[n]).value
  {
    var v := Resolve(r, fs, s).value;
    assert forall n :: n in v.children <==> n in s.children;
  }

  /** A level whose children all have cold nodes resolves, and these are its nodes. */
  lemma ColdLevelNodes(r: Rules, fs: Tree, s: Shape, nodes: seq<Node>)
    requires s.Branch? && |nodes| == |SortNames(s.children.Keys)|
    requires var names := SortNames(s.children.Keys);
             forall k | 0 <= k < |names| :: ColdShape(r, fs, s.children[names[k]], names[k]) == Some(nodes[k])
    ensures Resolve(r, fs, s).Some?
    ensures NodesOf(r.sha, Resolve(r, fs, s).value, SortNames(Resolve(r, fs, s).value.children.Keys)) == Some(nodes)
  {
    var names := SortNames(s.children.Keys);
    forall n | n in s.children ensures Resolve(r, fs, s.children[n]).Some? {
      assert n in names;
      var k :| 0 <= k < |names| && names[k] == n;
    }
    LevelResolves(r, fs, s);
    var v := Resolve(r, fs, s).value;
    forall k | 0 <= k < |names| ensures NodeOf(r.sha, v.children[names[k]], names[k]) == Some(nodes[k]) {
      assert names[k] in names;
      assert v.children[names[k]] == Resolve(r, fs, s.children[names[k]]).value;
    }
    NodesOfPointwise(r.sha, v, names);
    assert NodesOf(r.sha, v, names).value == nodes;
  }

  lemma LevelFails(r: Rules, fs: Tree, d: set<Path>, s: Shape, n: Name)
    requires s.Branch? && n in s.children
    requires ShapeCovered(r, d, s.children[n]) || ColdShape(r, fs, s.children[n], n) == None
    ensures LevelAnswer(r, fs, d, s, None)
  {
    if !ShapeCovered(r, d, s) {
      ChildShapeCovers(r, d, s, n);
      if Resolve(r, fs, s).Some? {
        var v := Resolve(r, fs, s).value;
        var names := SortNames(v.children.Keys);
        assert n in v.children && n in names;
        var i :| 0 <= i < |names| && names[i] == n;
        NodesOfPointwise(r.sha, v, names);
      }
    }
  }

  // ---------------------------------------------------------------- roots

  ghost predicate RootAnswer(r: Rules, fs: Tree, d: set<Path>, s: Shape, digest: Option<Digest>)
    requires s.Branch?
  {
    ShapeCovered(r, d, s) || ColdRoot(r, fs, s) == digest
  }

  lemma RootLater(r: Rules, fs: Tree, d: set<Path>, gs: Tree, e: set<Path>, s: Shape, digest: Option<Digest>)
    requires s.Branch? && RootAnswer(r, fs, d, s, digest) && Later(fs, d, gs, e)
    ensures RootAnswer(r, gs, e, s, digest)
  {
    if !ShapeCovered(r, e, s) {
      CoverageGrows(r, d, e, s);
      ResolveLater(r, fs, d, gs, e, s);
    }
  }

  /** Nothing a walk could show lies at the path. */
  predicate Missing(r: Rules, fs: Tree, rel: Path) {
    Excluded(r, rel) || VisibleAt(r, fs, rel).None?
  }

  lemma {:induction false} MissingTerminalFails(r: Rules, fs: Tree, s: Shape, rel: Path)
    requires rel in Terminals(s) && Missing(r, fs, rel)
    ensures Resolve(r, fs, s).None?
    decreases s
  {
    if s.Branch? {
      var n :| n in s.children && rel in Terminals(s.children[n]);
      MissingTerminalFails(r, fs, s.children[n], rel);
    }
  }

  /** Fewer reasons for distrust: what covers under `d` covers under `e`. */
  lemma {:induction false} TrieTransfer(r: Rules, fs: Tree, d: set<Path>, e: set<Path>, t: Trie)
    requires TrieSound(r, fs, d, t) && forall rel :: Covered(r, d, rel) ==> Covered(r, e, rel)
    ensures TrieSound(r, fs, e, t)
    decreases t
  {
    forall n | n in t.children && t.terminal.None? ensures TrieSound(r, fs, e, t.children[n]) {
      TrieTransfer(r, fs, d, e, t.children[n]);
    }
  }

  lemma {:induction false} FreshTrieIsSound(r: Rules, fs: Tree, d: set<Path>, t: Trie)
    requires AllDirty(t)
    ensures TrieSound(r, fs, d, t)
    decreases t
  {
    forall n | n in t.children ensures TrieSound(r, fs, d, t.children[n]) {
      FreshTrieIsSound(r, fs, d, t.children[n]);
    }
  }
}
