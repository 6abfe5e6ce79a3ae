/** The scoped walk itself, over a filesystem that holds still. */
module ScopedObservations {
  import opened Base
  import opened Encoding
  import opened MerkleSpec
  import opened InputScopes
  import opened ScopedTrees
  import opened InputCaptures

  // ---------------------------------------------------------------- the tree being hashed

  /** A path that is not excluded holds the same entry in the pruned tree. */
  lemma PrunedEntry(fs: Tree, excluded: set<Path>, p: Path)
    requires !Excludes(excluded, p)
    ensures var gs := Pruned(fs, excluded, []);
            Lookup(gs, p) == match Lookup(fs, p) case None => None case Some(t) => Some(Pruned(t, excluded, p))
    ensures Own(Pruned(fs, excluded, []), p) == Own(fs, p)
  {
    if Excludes(excluded, []) {
      ExcludesBelow(excluded, [], p);
    }
    PrunedLookup(fs, excluded, [], p);
    assert [] + p == p;
  }

  /** The names a directory of the pruned tree shows are those the scoped walk lists, specials aside. */
  lemma PrunedNames(r: Rules, fs: Tree, excluded: set<Path>, rel: Path)
    requires IsDir(fs, rel) && !Excludes(excluded, rel) && !Excluded(r, rel)
    requires forall n :: n in Names(r, excluded, Lookup(fs, rel).value.children, rel) ==>
            !Lookup(fs, rel).value.children[n].Special?
    ensures var gs := Pruned(fs, excluded, []);
            IsDir(gs, rel) && VisibleAt(r, gs, rel).value.children.Keys == Names(r, excluded,
                Lookup(fs, rel).value.children, rel)
  {
    PrunedEntry(fs, excluded, rel);
    var t := Lookup(fs, rel).value;
    var u := Pruned(t, excluded, rel);
    assert forall n | n in u.children :: u.children[n].Special? <==> t.children[n].Special?;
    assert VisibleNames(r, u.children, rel) == Names(r, excluded, t.children, rel);
  }

  /** A directory's digest is assembled from the cold nodes of the names it shows. */
  lemma DirectoryLevel(r: Rules, gs: Tree, rel: Path, names: seq<Name>, nodes: seq<Node>)
    requires IsDir(gs, rel) && !Excluded(r, rel) && names == SortNames(VisibleAt(r, gs, rel).value.children.Keys)
    requires |nodes| == |names| && forall k | 0 <= k < |names| ::
            ColdNode(r, gs, rel + [names[k]], names[k]) == Some(nodes[k])
    ensures ColdDirectory(r, gs, rel) == HashNodes(r.sha, DirectoryDomain, nodes)
  {
    var v := VisibleAt(r, gs, rel).value;
    forall k | 0 <= k < |names| ensures NodeOf(r.sha, v.children[names[k]], names[k]) == Some(nodes[k]) {
      assert names[k] in names;
      ShownChild(r, gs, rel, names[k]);
    }
    NodesOfPointwise(r.sha, v, names);
    assert NodesOf(r.sha, v, names).value == nodes;
  }

  lemma ShownChild(r: Rules, gs: Tree, rel: Path, n: Name)
    requires IsDir(gs, rel) && n in VisibleAt(r, gs, rel).value.children
    ensures VisibleAt(r, gs, rel + [n]) == Some(VisibleAt(r, gs, rel).value.children[n])
  {
    ChildLookup(gs, rel, n);
  }

  /** If a shown child has no digest, neither has the directory. */
  lemma DirectoryFails(r: Rules, gs: Tree, rel: Path, n: Name)
    requires IsDir(gs, rel) && !Excluded(r, rel) && n in VisibleAt(r, gs, rel).value.children
    requires ColdNode(r, gs, rel + [n], n).None? && !Excluded(r, rel + [n])
    ensures ColdDirectory(r, gs, rel).None?
  {
    var v := VisibleAt(r, gs, rel).value;
    var names := SortNames(v.children.Keys);
    ShownChild(r, gs, rel, n);
    NodesOfPointwise(r.sha, v, names);
    assert n in names;
    var i :| 0 <= i < |names| && names[i] == n;
  }

  // ---------------------------------------------------------------- one directory

  function UnderNames(r: Rules, excluded: set<Path>, fs: Tree, rel: Path, names: seq<Name>): set<Path> {
    set n, q | n in names && q in Under(r, excluded, fs, rel + [n]) :: q
  }

  function Children(rel: Path, names: set<Name>): set<Path> {
    set n | n in names :: rel + [n]
  }

  /** What may be refused below a path: the whole selection, or this path's own digest. */
  ghost predicate WalkRefusal(cap: InputCapture, all: set<Path>, cold: bool, e: CaptureError) {
    (e == Overflow && !cold) || Refusal(Sampled(cap.fs), all, cap.maxMembers, e)
  }

  /** The entries of a directory, bounded while they are being enumerated in any order. */
  method ScopedEntries(cap: InputCapture, r: Rules, rel: Path, ghost all: set<Path>)
    returns (entries: Result<seq<Name>, CaptureError>)
    requires cap.Good(r, all) && IsDir(cap.fs, rel)
    requires Children(rel, Names(r, cap.excluded, Lookup(cap.fs, rel).value.children, rel)) <= all
    ensures entries.Ok? ==> entries.value == SortNames(Names(r, cap.excluded, Lookup(cap.fs, rel).value.children, rel))
    ensures entries.Err? ==> entries.error == BoundExceeded && |all| > cap.maxMembers
  {
    var children := Lookup(cap.fs, rel).value.children;
    ghost var goal := Names(r, cap.excluded, children, rel);
    var found := FilterEntries(cap, children.Keys, n => Listed(r, cap.excluded, rel + [n]), rel, goal, all);
    entries := if found.Err? then Err(found.error) else Ok(SortNames(found.value));
  }

  /** The entries of a listing that pass a filter, each counted as pending before it is kept. */
  method FilterEntries(cap: InputCapture, listing: set<Name>, shown: Name -> bool, rel: Path, ghost goal: set<Name>,
      ghost all: set<Path>)
    returns (names: Result<set<Name>, CaptureError>)
    requires goal <= listing && forall n :: n in listing ==> (shown(n) <==> n in goal)
    requires cap.states.Keys <= all && Children(rel, goal) <= all
    ensures names.Ok? ==> names.value == goal
    ensures names.Err? ==> names.error == BoundExceeded && |all| > cap.maxMembers
  {
    var kept: set<Name>, todo, pending := {}, listing, 0;
    while todo != {}
      invariant todo <= listing && kept == goal - todo
      invariant pending == |Children(rel, kept) - cap.states.Keys|
      decreases todo
    {
      var n :| n in todo;
      KeptMore(goal, todo, n);
      if shown(n) {
        var checked := ListOne(cap, rel, n, pending, kept, goal, all);
        if checked.Err? {
          return Err(BoundExceeded);
        }
        pending, kept := checked.value, kept + {n};
      }
      todo := todo - {n};
    }
    return Ok(kept);
  }

  /** One more name of a listing, if the bound allows. */
  method ListOne(cap: InputCapture, rel: Path, n: Name, pending: nat, ghost kept: set<Name>, ghost goal: set<Name>,
      ghost all: set<Path>)
    returns (checked: Result<nat, CaptureError>)
    requires cap.states.Keys <= all && Children(rel, goal) <= all && kept + {n} <= goal && n !in kept
    requires pending == |Children(rel, kept) - cap.states.Keys|
    ensures checked.Ok? ==> checked.value == |Children(rel, kept + {n}) - cap.states.Keys|
    ensures checked.Err? ==> |all| > cap.maxMembers
  {
    ChildrenMore(rel, kept, n);
    ChildrenWithin(cap.states.Keys, rel, kept + {n}, goal, all);
    assert cap.states.Keys + Children(rel, kept + {n}) == cap.states.Keys + Children(rel, kept) + {rel + [n]};
    checked := cap.CheckPending(rel + [n], pending, Children(rel, kept));
  }

  lemma KeptMore(goal: set<Name>, todo: set<Name>, n: Name)
    requires n in todo
    ensures goal - (todo - {n}) == if n in goal then (goal - todo) + {n} else goal - todo
  {
  }

  lemma ChildrenMore(rel: Path, names: set<Name>, n: Name)
    requires n !in names
    ensures Children(rel, names + {n}) == Children(rel, names) + {rel + [n]} && rel + [n] !in Children(rel, names)
  {
    forall m | m in names ensures rel + [m] != rel + [n] {
      assert (rel + [m])[|rel|] == m && (rel + [n])[|rel|] == n;
    }
  }

  lemma ChildrenWithin(states: set<Path>, rel: Path, names: set<Name>, goal: set<Name>, all: set<Path>)
    requires states <= all && names <= goal && Children(rel, goal) <= all
    ensures |states + Children(rel, names)| <= |all|
  {
    SmallerSet(states + Children(rel, names), all);
  }

  /** Every listed entry is sampled, unsupported ones refused, before any is read. */
  method BeginAll(cap: InputCapture, ghost r: Rules, paths: seq<Path>, ghost all: set<Path>)
    returns (failure: Option<CaptureError>)
    requires cap.Good(r, all) && Elements(paths) <= all
    requires forall p :: p in Elements(paths) ==> Lookup(cap.fs, p).Some?
    modifies cap`states, cap`counts
    ensures cap.Good(r, all) && old(cap.states.Keys) <= cap.states.Keys
    ensures failure.None? ==> cap.states.Keys == old(cap.states.Keys) + Elements(paths)
    ensures failure.Some? ==> Refusal(Sampled(cap.fs), all, cap.maxMembers, failure.value)
  {
    ghost var states0 := cap.states.Keys;
    var i := 0;
    failure := None;
    while i < |paths| && failure.None?
      invariant 0 <= i <= |paths|
      invariant cap.Good(r, all) && states0 <= cap.states.Keys
      invariant failure.None? ==> cap.states.Keys == states0 + Elements(paths[..i])
      invariant failure.Some? ==> Refusal(Sampled(cap.fs), all, cap.maxMembers, failure.value)
    {
      BegunMore(states0, paths, i);
      failure := cap.Begin(paths[i], r, all);
      i := i + 1;
    }
    assert paths[..|paths|] == paths;
  }

  lemma BegunMore(states0: set<Path>, paths: seq<Path>, i: nat)
    requires i < |paths|
    ensures states0 + Elements(paths[..i + 1]) == (states0 + Elements(paths[..i])) + {paths[i]}
            && paths[i] in Elements(paths)
  {
    assert paths[..i + 1] == paths[..i] + [paths[i]];
  }

  function ChildPaths(rel: Path, names: seq<Name>): (r: seq<Path>)
    ensures Elements(r) == Children(rel, Elements(names))
  {
    var r := seq(|names|, i requires 0 <= i < |names| => rel + [names[i]]);
    assert forall i | 0 <= i < |names| :: r[i] in Elements(r) && names[i] in Elements(names);
    r
  }

  lemma UnderNamesMore(r: Rules, excluded: set<Path>, fs: Tree, rel: Path, names: seq<Name>, i: nat)
    requires i < |names|
    ensures UnderNames(r, excluded, fs, rel, names[..i + 1]) == UnderNames(r, excluded, fs, rel, names[..i]) + Under(r,
            excluded, fs, rel + [names[i]])
  {
    assert names[..i + 1] == names[..i] + [names[i]];
  }

  lemma UnderLeaf(r: Rules, excluded: set<Path>, fs: Tree, p: Path)
    requires Lookup(fs, p).Some? && !IsDir(fs, p)
    ensures Under(r, excluded, fs, p) == {p}
  {
    var t := Lookup(fs, p).value;
    assert Paths(Shown(r, excluded, t, p)) == {[]};
    assert p + [] == p;
  }

  lemma UnderDirectory(r: Rules, excluded: set<Path>, fs: Tree, rel: Path, names: seq<Name>)
    requires IsDir(fs, rel) && Elements(names) == Names(r, excluded, Lookup(fs, rel).value.children, rel)
    ensures Under(r, excluded, fs, rel) == {rel} + UnderNames(r, excluded, fs, rel, names)
  {
    UnderSplits(r, excluded, fs, rel);
    assert forall n :: n in names <==> n in Elements(names);
  }

  // ---------------------------------------------------------------- reading one entry

  lemma FileIsCold(r: Rules, fs: Tree, excluded: set<Path>, p: Path, n: Name)
    requires !Excludes(excluded, p) && !Excluded(r, p) && Lookup(fs, p).Some?
    ensures Lookup(fs, p).value.File? ==>
      ColdNode(r, Pruned(fs, excluded, []), p, n) == Some(FileNode(n, FileDigest(r.sha, Lookup(fs, p).value.content),
          Lookup(fs, p).value.executable))
    ensures Lookup(fs, p).value.Link? ==>
            ColdNode(r, Pruned(fs, excluded, []), p, n) == Some(LinkNode(n, Lookup(fs, p).value.target))
  {
    PrunedEntry(fs, excluded, p);
  }

  lemma DirectoryIsCold(r: Rules, fs: Tree, excluded: set<Path>, p: Path, n: Name)
    requires !Excludes(excluded, p) && !Excluded(r, p) && IsDir(fs, p)
    ensures var gs := Pruned(fs, excluded, []);
            ColdNode(r, gs, p, n) == match ColdDirectory(r, gs, p) case None => None case Some(d) => Some(DirNode(n, d))
  {
    PrunedEntry(fs, excluded, p);
  }

  /** The kind hashed is the kind sampled, as long as the filesystem holds still. */
  lemma KindHolds(r: Rules, fs: Tree, excluded: set<Path>, p: Path, n: Name, node: Node)
    requires !Excludes(excluded, p) && ColdNode(r, Pruned(fs, excluded, []), p, n) == Some(node)
    ensures StateAt(fs, p).Some? && StateAt(fs, p).value.kind == KindOf(node)
  {
    PrunedEntry(fs, excluded, p);
  }

  function TreeAt(fs: Tree, p: Path): Tree {
    match Lookup(fs, p)
    case None => Special
    case Some(t) => t
  }

  ghost predicate InScope(cap: InputCapture, r: Rules, p: Path, all: set<Path>) {
    !Excludes(cap.excluded, p) && !Excluded(r, p) && Under(r, cap.excluded, cap.fs, p) <= all
  }

  /** `_read_path_node` for a sampled entry: hash a file, read a link, or walk a directory. */
  method ReadEntry(cap: InputCapture, r: Rules, p: Path, n: Name, ghost all: set<Path>)
    returns (res: Result<Node, CaptureError>)
    requires cap.Good(r, all) && p in cap.states && InScope(cap, r, p, all)
    modifies cap
    ensures cap.Good(r, all) && old(cap.states.Keys) <= cap.states.Keys
    ensures res.Ok? ==> ColdNode(r, cap.Gs(), p, n) == Some(res.value)
    ensures res.Ok? ==> cap.states.Keys == old(cap.states.Keys) + Under(r, cap.excluded, cap.fs, p)
    ensures res.Ok? ==> cap.members.Keys + {p} == old(cap.members.Keys) + Under(r, cap.excluded, cap.fs, p)
    ensures res.Err? ==> WalkRefusal(cap, all, ColdNode(r, cap.Gs(), p, n).Some?, res.error)
    decreases TreeAt(cap.fs, p), 3
  {
    FileIsCold(r, cap.fs, cap.excluded, p, n);
    match Lookup(cap.fs, p) {
      case Some(File(c, x)) =>
        res := Ok(FileNode(n, FileDigest(r.sha, c), x));
        UnderLeaf(r, cap.excluded, cap.fs, p);
        assert cap.states.Keys == cap.states.Keys + {p};
      case Some(Link(g)) =>
        res := Ok(LinkNode(n, g));
        UnderLeaf(r, cap.excluded, cap.fs, p);
        assert cap.states.Keys == cap.states.Keys + {p};
      case Some(Dir(_)) =>
        DirectoryIsCold(r, cap.fs, cap.excluded, p, n);
        var sub := WalkDirectory(cap, r, p, all);
        res := if sub.Ok? then Ok(DirNode(n, sub.value)) else Err(sub.error);
      case _ =>
        assert false;
    }
  }

  /** The node of one entry, recorded. */
  method CaptureEntry(cap: InputCapture, r: Rules, p: Path, n: Name, ghost all: set<Path>)
    returns (res: Result<Node, CaptureError>)
    requires cap.Good(r, all) && p in cap.states && InScope(cap, r, p, all)
    modifies cap
    ensures cap.Good(r, all) && old(cap.states.Keys) <= cap.states.Keys
    ensures res.Ok? ==> ColdNode(r, cap.Gs(), p, n) == Some(res.value)
    ensures res.Ok? ==> cap.states.Keys == old(cap.states.Keys) + Under(r, cap.excluded, cap.fs, p)
    ensures res.Ok? ==> cap.members.Keys == old(cap.members.Keys) + Under(r, cap.excluded, cap.fs, p)
    ensures res.Err? ==> WalkRefusal(cap, all, ColdNode(r, cap.Gs(), p, n).Some?, res.error)
    decreases TreeAt(cap.fs, p), 4
  {
    res := ReadEntry(cap, r, p, n, all);
    if res.Ok? {
      UnderSelf(r, cap.excluded, cap.fs, p);
      var failure := RecordEntry(cap, r, p, n, res.value, all);
      res := if failure.None? then res else Err(KindChanged);
    }
  }

  /** The cold node of a sampled entry is of the sampled kind, and is recorded. */
  method RecordEntry(cap: InputCapture, r: Rules, p: Path, ghost n: Name, node: Node, ghost all: set<Path>)
    returns (failure: Option<CaptureError>)
    requires cap.Good(r, all) && p in cap.states && !Excludes(cap.excluded, p)
    requires ColdNode(r, cap.Gs(), p, n) == Some(node)
    modifies cap`members
    ensures cap.Good(r, all) && failure.None? && cap.members.Keys == old(cap.members.Keys) + {p}
  {
    ColdNodeIsMember(r, cap.Gs(), p, n, node);
    KindHolds(r, cap.fs, cap.excluded, p, n, node);
    SampledKind(cap, r, all, p);
    failure := cap.Record(p, node, NodeRevision(r.sha, node), r, all);
  }

  lemma SampledKind(cap: InputCapture, r: Rules, all: set<Path>, p: Path)
    requires cap.Good(r, all) && p in cap.states
    ensures StateAt(cap.fs, p) == Some(cap.states[p])
  {
    assert Sampled(cap.fs)(p) == Some(cap.states[p]);
  }

  lemma UnderSelf(r: Rules, excluded: set<Path>, fs: Tree, p: Path)
    ensures Lookup(fs, p).Some? ==> p in Under(r, excluded, fs, p)
  {
    UnderIsExact(r, excluded, fs, p, p);
  }

  // ---------------------------------------------------------------- one directory, read

  /** The cold node of each entry of a directory. */
  ghost function ColdChildren(r: Rules, gs: Tree, rel: Path): Name -> Option<Node> {
    n => ColdNode(r, gs, rel + [n], n)
  }

  ghost predicate AllSome(cold: Name -> Option<Node>, names: seq<Name>) {
    forall n :: n in names ==> cold(n).Some?
  }

  ghost predicate NodesFor(cold: Name -> Option<Node>, names: seq<Name>, nodes: seq<Node>) {
    |nodes| == |names| && forall k | 0 <= k < |names| :: cold(names[k]) == Some(nodes[k])
  }

  lemma NodesForMore(cold: Name -> Option<Node>, names: seq<Name>, i: nat, nodes: seq<Node>, node: Node)
    requires i < |names| && NodesFor(cold, names[..i], nodes) && cold(names[i]) == Some(node)
    ensures NodesFor(cold, names[..i + 1], nodes + [node])
  {
  }

  lemma UnionAssociates(a: set<Path>, b: set<Path>, c: set<Path>)
    ensures (a + b) + c == a + (b + c)
  {
  }

  ghost predicate EntriesReady(cap: InputCapture, r: Rules, rel: Path, names: seq<Name>, all: set<Path>)
  {
    forall n :: n in names ==> InScope(cap, r, rel + [n], all) && TreeAt(cap.fs, rel + [n]) < TreeAt(cap.fs, rel)
  }

  method CaptureEntries(cap: InputCapture, r: Rules, rel: Path, names: seq<Name>, ghost all: set<Path>)
    returns (res: Result<seq<Node>, CaptureError>)
    requires cap.Good(r, all) && EntriesReady(cap, r, rel, names, all)
            && Children(rel, Elements(names)) <= cap.states.Keys
    modifies cap
    ensures cap.Good(r, all) && old(cap.states.Keys) <= cap.states.Keys
    ensures res.Ok? ==> NodesFor(ColdChildren(r, cap.Gs(), rel), names, res.value)
    ensures res.Ok? ==> cap.states.Keys == old(cap.states.Keys) + UnderNames(r, cap.excluded, cap.fs, rel, names)
    ensures res.Ok? ==> cap.members.Keys == old(cap.members.Keys) + UnderNames(r, cap.excluded, cap.fs, rel, names)
    ensures res.Err? ==> WalkRefusal(cap, all, AllSome(ColdChildren(r, cap.Gs(), rel), names), res.error)
    decreases TreeAt(cap.fs, rel), 1
  {
    ghost var cold, states0, members0 := ColdChildren(r, cap.Gs(), rel), cap.states.Keys, cap.members.Keys;
    var i := 0;
    res := Ok([]);
    while i < |names| && res.Ok?
      invariant 0 <= i <= |names|
      invariant cap.Good(r, all) && states0 <= cap.states.Keys
      invariant res.Ok? ==> NodesFor(cold, names[..i], res.value)
      invariant res.Ok? ==> cap.states.Keys == states0 + UnderNames(r, cap.excluded, cap.fs, rel, names[..i])
      invariant res.Ok? ==> cap.members.Keys == members0 + UnderNames(r, cap.excluded, cap.fs, rel, names[..i])
      invariant res.Err? ==> WalkRefusal(cap, all, AllSome(cold, names), res.error)
    {
      ghost var done, next := UnderNames(r, cap.excluded, cap.fs, rel, names[..i]),
          Under(r, cap.excluded, cap.fs, rel + [names[i]]);
      UnderNamesMore(r, cap.excluded, cap.fs, rel, names, i);
      UnionAssociates(states0, done, next);
      UnionAssociates(members0, done, next);
      assert names[i] in names && rel + [names[i]] in Children(rel, Elements(names));
      var node := CaptureEntry(cap, r, rel + [names[i]], names[i], all);
      if node.Err? {
        res := Err(node.error);
      } else {
        NodesForMore(cold, names, i, res.value, node.value);
        res := Ok(res.value + [node.value]);
      }
      i := i + 1;
    }
    assert names[..|names|] == names;
  }

  /** List a directory, remember its listing, and sample every listed entry. */
  method ListDirectory(cap: InputCapture, r: Rules, rel: Path, ghost all: set<Path>)
    returns (names: Result<seq<Name>, CaptureError>)
    requires cap.Good(r, all) && IsDir(cap.fs, rel) && InScope(cap, r, rel, all)
    modifies cap
    ensures cap.Good(r, all) && cap.members == old(cap.members) && old(cap.states.Keys) <= cap.states.Keys
    ensures names.Ok? ==> names.value == SortNames(Names(r, cap.excluded, Lookup(cap.fs, rel).value.children, rel))
    ensures names.Ok? ==>
            cap.states.Keys == old(cap.states.Keys) + Children(rel, Elements(names.value))
            && EntriesReady(cap, r, rel, names.value, all)
    ensures names.Ok? ==> cap.directories == old(cap.directories)[rel := names.value]
    ensures names.Ok? ==> forall n :: n in names.value ==>
            StateAt(cap.fs, rel + [n]).Some? && StateAt(cap.fs, rel + [n]).value.kind != OtherKind
    ensures names.Err? ==> Refusal(Sampled(cap.fs), all, cap.maxMembers, names.error)
  {
    ScopeBelow(r, cap.excluded, cap.fs, rel);
    names := ScopedEntries(cap, r, rel, all);
    if names.Ok? {
      cap.directories := cap.directories[rel := names.value];
      var begun := BeginAll(cap, r, ChildPaths(rel, names.value), all);
      forall n | n in names.value && begun.None? ensures rel + [n] in cap.states {
        assert rel + [n] in Children(rel, Elements(names.value));
      }
      names := if begun.Some? then Err(begun.value) else names;
    }
  }

  /** One directory: list, bound, sample, read and record its entries, and hash them in name order. */
  method WalkDirectory(cap: InputCapture, r: Rules, rel: Path, ghost all: set<Path>)
    returns (res: Result<Digest, CaptureError>)
    requires cap.Good(r, all) && IsDir(cap.fs, rel) && rel in cap.states && InScope(cap, r, rel, all)
    modifies cap
    ensures cap.Good(r, all) && old(cap.states.Keys) <= cap.states.Keys
    ensures res.Ok? ==> ColdDirectory(r, cap.Gs(), rel) == Some(res.value)
    ensures res.Ok? ==> cap.states.Keys == old(cap.states.Keys) + Under(r, cap.excluded, cap.fs, rel)
    ensures res.Ok? ==> cap.members.Keys + {rel} == old(cap.members.Keys) + Under(r, cap.excluded, cap.fs, rel)
    ensures res.Err? ==> WalkRefusal(cap, all, ColdDirectory(r, cap.Gs(), rel).Some?, res.error)
    decreases TreeAt(cap.fs, rel), 2
  {
    ghost var states0 := cap.states.Keys;
    var names := ListDirectory(cap, r, rel, all);
    if names.Err? {
      res := Err(names.error);
    } else {
      res := ReadListed(cap, r, rel, names.value, all, states0);
    }
  }

  /** The listed entries are sampled by now; read and record them, and hash their nodes. */
  method ReadListed(cap: InputCapture, r: Rules, rel: Path, names: seq<Name>, ghost all: set<Path>,
                    ghost states0: set<Path>) returns (res: Result<Digest, CaptureError>)
    requires cap.Good(r, all) && IsDir(cap.fs, rel) && rel in states0 && InScope(cap, r, rel, all)
    requires names == SortNames(Names(r, cap.excluded, Lookup(cap.fs, rel).value.children, rel))
    requires cap.states.Keys == states0 + Children(rel, Elements(names)) && EntriesReady(cap, r, rel, names, all)
    requires forall n :: n in names ==>
               StateAt(cap.fs, rel + [n]).Some? && StateAt(cap.fs, rel + [n]).value.kind != OtherKind
    modifies cap
    ensures cap.Good(r, all) && states0 <= cap.states.Keys
    ensures res.Ok? ==> ColdDirectory(r, cap.Gs(), rel) == Some(res.value)
    ensures res.Ok? ==> cap.states.Keys == states0 + Under(r, cap.excluded, cap.fs, rel)
    ensures res.Ok? ==> cap.members.Keys + {rel} == old(cap.members.Keys) + Under(r, cap.excluded, cap.fs, rel)
    ensures res.Err? ==> WalkRefusal(cap, all, ColdDirectory(r, cap.Gs(), rel).Some?, res.error)
    decreases TreeAt(cap.fs, rel), 2, 0
  {
    ghost var states1, members0 := cap.states.Keys, cap.members.Keys;
    DirectoryResult(r, cap.fs, cap.excluded, rel, names);
    CapturedDirectory(r, cap.excluded, cap.fs, rel, names, states0, states1, members0);
    var nodes := CaptureEntries(cap, r, rel, names, all);
    if nodes.Err? {
      res := Err(nodes.error);
      return;
    }
    var digest := HashNodes(r.sha, DirectoryDomain, nodes.value);
    res := if digest.None? then Err(Overflow) else Ok(digest.value);
  }

  /** Sampling the children first and walking them next captures the whole subtree. */
  lemma CapturedDirectory(r: Rules, excluded: set<Path>, fs: Tree, rel: Path, names: seq<Name>, states0: set<Path>,
      states1: set<Path>, members0: set<Path>)
    requires IsDir(fs, rel) && names == SortNames(Names(r, excluded, Lookup(fs, rel).value.children, rel))
    requires rel in states0
    requires states1 == states0 + Children(rel, Elements(names)) && forall n :: n in names ==>
            Lookup(fs, rel + [n]).Some?
    ensures states1 + UnderNames(r, excluded, fs, rel, names) == states0 + Under(r, excluded, fs, rel)
    ensures (members0 + UnderNames(r, excluded, fs, rel, names)) + {rel} == members0 + Under(r, excluded, fs, rel)
  {
    UnderDirectory(r, excluded, fs, rel, names);
    forall n | n in names ensures rel + [n] in UnderNames(r, excluded, fs, rel, names) {
      UnderSelf(r, excluded, fs, rel + [n]);
    }
    var below := UnderNames(r, excluded, fs, rel, names);
    assert Children(rel, Elements(names)) <= below;
    Absorbed(states0, Children(rel, Elements(names)), below, rel);
    Moved(members0, below, rel);
  }

  lemma Absorbed(a: set<Path>, b: set<Path>, c: set<Path>, p: Path)
    requires b <= c && p in a
    ensures (a + b) + c == a + ({p} + c)
  {
  }

  lemma Moved(a: set<Path>, b: set<Path>, p: Path)
    ensures (a + b) + {p} == a + ({p} + b)
  {
  }

  /** The entries of a directory in scope are in scope themselves, and smaller. */
  lemma ScopeBelow(r: Rules, excluded: set<Path>, fs: Tree, rel: Path)
    requires IsDir(fs, rel)
    ensures Lookup(fs, rel).value.Dir?
    ensures Children(rel, Names(r, excluded, Lookup(fs, rel).value.children, rel)) <= Under(r, excluded, fs, rel)
    ensures forall n :: n in Names(r, excluded, Lookup(fs, rel).value.children, rel) ==>
      && Lookup(fs, rel + [n]).Some? && Under(r, excluded, fs, rel + [n]) <= Under(r, excluded, fs, rel)
      && !Excludes(excluded, rel + [n]) && !Excluded(r, rel + [n]) && TreeAt(fs, rel + [n]) < TreeAt(fs, rel)
  {
    UnderSplits(r, excluded, fs, rel);
    forall n | n in Names(r, excluded, Lookup(fs, rel).value.children, rel)
      ensures rel + [n] in Under(r, excluded, fs, rel + [n])
              && Lookup(fs, rel + [n]) == Some(Lookup(fs, rel).value.children[n])
    {
      ChildLookup(fs, rel, n);
      UnderSelf(r, excluded, fs, rel + [n]);
    }
  }

  /** What the entries' nodes mean for the directory itself. */
  lemma DirectoryResult(r: Rules, fs: Tree, excluded: set<Path>, rel: Path, names: seq<Name>)
    requires IsDir(fs, rel) && !Excludes(excluded, rel) && !Excluded(r, rel)
    requires names == SortNames(Names(r, excluded, Lookup(fs, rel).value.children, rel))
    requires forall n :: n in names ==> StateAt(fs, rel + [n]).Some? && StateAt(fs, rel + [n]).value.kind != OtherKind
    ensures var gs := Pruned(fs, excluded, []);
            && (!AllSome(ColdChildren(r, gs, rel), names) ==> ColdDirectory(r, gs, rel).None?)
            && forall nodes :: NodesFor(ColdChildren(r, gs, rel), names, nodes) ==>
                ColdDirectory(r, gs, rel) == HashNodes(r.sha, DirectoryDomain, nodes)
  {
    var gs := Pruned(fs, excluded, []);
    var children := Lookup(fs, rel).value.children;
    forall n | n in Names(r, excluded, children, rel) ensures !children[n].Special? {
      ChildLookup(fs, rel, n);
      assert n in names;
    }
    PrunedNames(r, fs, excluded, rel);
    if !AllSome(ColdChildren(r, gs, rel), names) {
      var n :| n in names && ColdChildren(r, gs, rel)(n).None?;
      DirectoryFails(r, gs, rel, n);
    }
    forall nodes | NodesFor(ColdChildren(r, gs, rel), names, nodes)
      ensures ColdDirectory(r, gs, rel) == HashNodes(r.sha, DirectoryDomain, nodes)
    {
      DirectoryLevel(r, gs, rel, names, nodes);
    }
  }
}
