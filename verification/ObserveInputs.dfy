/** A whole scoped observation: the selected roots, the synthetic levels above them, and the verdict. */
module InputObservations {
  import opened Base
  import opened Encoding
  import opened MerkleSpec
  import opened ManifestTrie
  import opened ManifestShapes
  import opened PathText
  import opened InputScopes
  import opened ScopedTrees
  import opened InputCaptures
  import opened ScopedObservations
  import HotCaches

  // ---------------------------------------------------------------- synthetic levels

  /** The entries under a set of selected roots. */
  function UnderAll(r: Rules, excluded: set<Path>, fs: Tree, roots: set<Path>): set<Path> {
    set t, q | t in roots && q in Under(r, excluded, fs, t) :: q
  }

  lemma UnderAllSplits(r: Rules, excluded: set<Path>, fs: Tree, a: set<Path>, b: set<Path>)
    ensures UnderAll(r, excluded, fs, a + b) == UnderAll(r, excluded, fs, a) + UnderAll(r, excluded, fs, b)
  {
  }

  lemma UnderOne(r: Rules, excluded: set<Path>, fs: Tree, t: Path)
    ensures UnderAll(r, excluded, fs, {t}) == Under(r, excluded, fs, t)
  {
  }

  /** The terminals below some children of a level. */
  function TerminalsOf(s: Shape, names: seq<Name>): set<Path>
    requires s.Branch?
  {
    set n, p | n in names && n in s.children && p in Terminals(s.children[n]) :: p
  }

  lemma TerminalsOfMore(s: Shape, names: seq<Name>, i: nat)
    requires s.Branch? && i < |names| && names[i] in s.children
    ensures TerminalsOf(s, names[..i + 1]) == TerminalsOf(s, names[..i]) + Terminals(s.children[names[i]])
  {
    assert names[..i + 1] == names[..i] + [names[i]];
  }

  lemma TerminalsOfAll(s: Shape)
    requires s.Branch?
    ensures TerminalsOf(s, SortNames(s.children.Keys)) == Terminals(s)
  {
  }

  ghost function ColdShapes(r: Rules, gs: Tree, s: Shape): Name -> Option<Node> {
    n => if s.Branch? && n in s.children then ColdShape(r, gs, s.children[n], n) else None
  }

  /** A child without a node leaves its level without a digest. */
  lemma LevelFailure(r: Rules, gs: Tree, s: Shape)
    requires s.Branch?
    ensures !AllSome(ColdShapes(r, gs, s), SortNames(s.children.Keys)) ==>
      Resolve(r, gs, s).None? || NodesOf(r.sha, Resolve(r, gs, s).value,
          SortNames(Resolve(r, gs, s).value.children.Keys)).None?
  {
    var names := SortNames(s.children.Keys);
    assert !ShapeCovered(r, {}, s);
    if !AllSome(ColdShapes(r, gs, s), names) {
      var n :| n in names && ColdShapes(r, gs, s)(n).None?;
      LevelFails(r, gs, {}, s, n);
    }
  }

  /** The children's nodes are the nodes of the level. */
  lemma LevelNodes(r: Rules, gs: Tree, s: Shape, nodes: seq<Node>)
    requires s.Branch? && NodesFor(ColdShapes(r, gs, s), SortNames(s.children.Keys), nodes)
    ensures Resolve(r, gs, s).Some?
    ensures NodesOf(r.sha, Resolve(r, gs, s).value, SortNames(Resolve(r, gs, s).value.children.Keys)) == Some(nodes)
  {
    var names := SortNames(s.children.Keys);
    forall k | 0 <= k < |names| ensures ColdShape(r, gs, s.children[names[k]], names[k]) == Some(nodes[k]) {
      assert names[k] in names && ColdShapes(r, gs, s)(names[k]) == Some(nodes[k]);
    }
    ColdLevelNodes(r, gs, s, nodes);
  }

  /** A failure while walking selected roots: of the walk, or because a root is excluded by policy. */
  ghost predicate ShapeRefusal(cap: InputCapture, r: Rules, all: set<Path>, roots: set<Path>, cold: bool,
      e: CaptureError) {
    WalkRefusal(cap, all, cold, e) || (e == ExcludedInput && exists t :: t in roots && Excluded(r, t))
  }

  ghost predicate RootsReady(cap: InputCapture, r: Rules, roots: set<Path>, all: set<Path>) {
    forall t :: t in roots ==> !Excludes(cap.excluded, t) && Under(r, cap.excluded, cap.fs, t) <= all
  }

  lemma RootsOfChild(cap: InputCapture, r: Rules, s: Shape, n: Name, all: set<Path>)
    requires s.Branch? && n in s.children && RootsReady(cap, r, Terminals(s), all)
    ensures RootsReady(cap, r, Terminals(s.children[n]), all) && Terminals(s.children[n]) <= Terminals(s)
  {
  }

  /** A selected root: refused if excluded, else sampled, read and recorded. */
  method WalkRoot(cap: InputCapture, r: Rules, rel: Path, n: Name, ghost all: set<Path>)
    returns (res: Result<Node, CaptureError>)
    requires cap.Good(r, all) && RootsReady(cap, r, {rel}, all) && rel in cap.states
    modifies cap
    ensures cap.Good(r, all) && old(cap.states.Keys) <= cap.states.Keys
    ensures res.Ok? ==> ColdShape(r, cap.Gs(), Leaf(rel), n) == Some(res.value)
    ensures res.Ok? ==> cap.states.Keys == old(cap.states.Keys) + UnderAll(r, cap.excluded, cap.fs, {rel})
    ensures res.Ok? ==> cap.members.Keys == old(cap.members.Keys) + UnderAll(r, cap.excluded, cap.fs, {rel})
    ensures res.Err? ==> ShapeRefusal(cap, r, all, {rel}, ColdShape(r, cap.Gs(), Leaf(rel), n).Some?, res.error)
  {
    HotCaches.LeafShape(r, cap.Gs(), {}, rel, n);
    UnderOne(r, cap.excluded, cap.fs, rel);
    assert rel in {rel};
    if Excluded(r, rel) {
      res := Err(ExcludedInput);
    } else {
      var begun := cap.Begin(rel, r, all);
      assert begun.None?;
      res := CaptureEntry(cap, r, rel, n, all);
    }
  }

  /** An inner level of the manifest. */
  method WalkShape(cap: InputCapture, r: Rules, s: Shape, n: Name, ghost all: set<Path>)
    returns (res: Result<Node, CaptureError>)
    requires cap.Good(r, all) && RootsReady(cap, r, Terminals(s), all) && Terminals(s) <= cap.states.Keys
    modifies cap
    ensures cap.Good(r, all) && old(cap.states.Keys) <= cap.states.Keys
    ensures res.Ok? ==> ColdShape(r, cap.Gs(), s, n) == Some(res.value)
    ensures res.Ok? ==> cap.states.Keys == old(cap.states.Keys) + UnderAll(r, cap.excluded, cap.fs, Terminals(s))
    ensures res.Ok? ==> cap.members.Keys == old(cap.members.Keys) + UnderAll(r, cap.excluded, cap.fs, Terminals(s))
    ensures res.Err? ==> ShapeRefusal(cap, r, all, Terminals(s), ColdShape(r, cap.Gs(), s, n).Some?, res.error)
    decreases s, 2
  {
    match s {
      case Leaf(rel) =>
        res := WalkRoot(cap, r, rel, n, all);
      case Branch(_) =>
        HotCaches.ColdLevel(r, cap.Gs(), s, n);
        var nodes := WalkLevel(cap, r, s, all);
        if nodes.Err? {
          LevelFailure(r, cap.Gs(), s);
          res := Err(nodes.error);
        } else {
          LevelNodes(r, cap.Gs(), s, nodes.value);
          var digest := HashNodes(r.sha, ManifestDirectoryDomain, nodes.value);
          res := if digest.None? then Err(Overflow) else Ok(DirNode(n, digest.value));
        }
    }
  }

  /** The children of a level, in name order. */
  method WalkLevel(cap: InputCapture, r: Rules, s: Shape, ghost all: set<Path>)
    returns (res: Result<seq<Node>, CaptureError>)
    requires s.Branch? && cap.Good(r, all) && RootsReady(cap, r, Terminals(s), all) && Terminals(s) <= cap.states.Keys
    modifies cap
    ensures cap.Good(r, all) && old(cap.states.Keys) <= cap.states.Keys
    ensures res.Ok? ==> NodesFor(ColdShapes(r, cap.Gs(), s), SortNames(s.children.Keys), res.value)
    ensures res.Ok? ==> cap.states.Keys == old(cap.states.Keys) + UnderAll(r, cap.excluded, cap.fs, Terminals(s))
    ensures res.Ok? ==> cap.members.Keys == old(cap.members.Keys) + UnderAll(r, cap.excluded, cap.fs, Terminals(s))
    ensures res.Err? ==>
            ShapeRefusal(cap, r, all, Terminals(s), AllSome(ColdShapes(r, cap.Gs(), s), SortNames(s.children.Keys)),
            res.error)
    decreases s, 1
  {
    var names := SortNames(s.children.Keys);
    ghost var states0, members0 := cap.states.Keys, cap.members.Keys;
    var i := 0;
    res := Ok([]);
    assert UnderAll(r, cap.excluded, cap.fs, TerminalsOf(s, names[..0])) == {};
    while i < |names| && res.Ok?
      invariant 0 <= i <= |names|
      invariant Walking(cap, r, s, names, i, all, states0, members0, res)
    {
      res := WalkNext(cap, r, s, names, i, all, states0, members0, res.value);
      i := i + 1;
    }
    assert names[..|names|] == names;
    TerminalsOfAll(s);
  }

  /** Where the loop over a level stands before child `i`. */
  ghost predicate Walking(cap: InputCapture, r: Rules, s: Shape, names: seq<Name>, i: nat, all: set<Path>,
      states0: set<Path>, members0: set<Path>, res: Result<seq<Node>, CaptureError>)
    requires s.Branch? && i <= |names|
    reads cap
  {
    && cap.Good(r, all) && states0 <= cap.states.Keys
    && (res.Ok? ==> NodesFor(ColdShapes(r, cap.Gs(), s), names[..i], res.value))
    && (res.Ok? ==> cap.states.Keys == states0 + UnderAll(r, cap.excluded, cap.fs, TerminalsOf(s, names[..i])))
    && (res.Ok? ==> cap.members.Keys == members0 + UnderAll(r, cap.excluded, cap.fs, TerminalsOf(s, names[..i])))
    && (res.Err? ==> ShapeRefusal(cap, r, all, Terminals(s), AllSome(ColdShapes(r, cap.Gs(), s), names), res.error))
  }

  /** One child more. */
  method WalkNext(cap: InputCapture, r: Rules, s: Shape, names: seq<Name>, i: nat, ghost all: set<Path>,
      ghost states0: set<Path>, ghost members0: set<Path>, nodes: seq<Node>)
    returns (res: Result<seq<Node>, CaptureError>)
    requires s.Branch? && i < |names| && names[i] in s.children && RootsReady(cap, r, Terminals(s), all)
    requires Terminals(s) <= states0 && Walking(cap, r, s, names, i, all, states0, members0, Ok(nodes))
    modifies cap
    ensures Walking(cap, r, s, names, i + 1, all, states0, members0, res)
    decreases s, 0
  {
    var n := names[i];
    ghost var done, next := TerminalsOf(s, names[..i]), Terminals(s.children[n]);
    TerminalsOfMore(s, names, i);
    RootsOfChild(cap, r, s, n, all);
    UnderAllSplits(r, cap.excluded, cap.fs, done, next);
    UnionAssociates(states0, UnderAll(r, cap.excluded, cap.fs, done), UnderAll(r, cap.excluded, cap.fs, next));
    UnionAssociates(members0, UnderAll(r, cap.excluded, cap.fs, done), UnderAll(r, cap.excluded, cap.fs, next));
    var node := WalkShape(cap, r, s.children[n], n, all);
    if node.Err? {
      assert n in names;
      res := Err(node.error);
    } else {
      NodesForMore(ColdShapes(r, cap.Gs(), s), names, i, nodes, node.value);
      res := Ok(nodes + [node.value]);
    }
  }

  // ---------------------------------------------------------------- the whole observation

  /** Every selected root exists below real directories. */
  ghost predicate Rooted(fs: Tree, paths: seq<Path>) {
    forall p :: p in paths ==> Lookup(fs, p).Some? && forall k | 0 <= k < |p| :: IsDir(fs, p[..k])
  }

  /** The entries a request selects. */
  function Selected(r: Rules, excluded: set<Path>, fs: Tree, paths: seq<Path>): set<Path> {
    UnderAll(r, excluded, fs, Elements(paths))
  }

  /** What a request must meet to be observed at all. */
  ghost predicate Observable(r: Rules, excluded: set<Path>, fs: Tree, paths: seq<Path>, bound: nat)
    requires forall p :: p in paths ==> p != []
  {
    && Rooted(fs, paths)
    && |Selected(r, excluded, fs, paths)| <= bound
    && (forall p :: p in Selected(r, excluded, fs, paths) ==> StateAt(fs, p) != Some(EntryState(OtherKind, 0)))
    && ColdRoot(r, Pruned(fs, excluded, []), ManifestShape(paths)).Some?
  }

  /** A manifest as resolution leaves it: no root is excluded, or below a selected directory. */
  ghost predicate ResolvedManifest(excluded: set<Path>, fs: Tree, paths: seq<Path>) {
    && TextSorted(paths)
    && (forall p :: p in paths ==> p != [] && !Excludes(excluded, p))
    && (forall p, q :: p in paths && q in paths && q <= p && q != p ==> !IsDir(fs, q))
  }

  /** Roots below real directories, none of them a selected directory, form an antichain. */
  lemma RootedIsAntichain(excluded: set<Path>, fs: Tree, paths: seq<Path>)
    requires ResolvedManifest(excluded, fs, paths) && Rooted(fs, paths)
    ensures Topmost(Elements(paths)) == Elements(paths)
    ensures Terminals(ManifestShape(paths)) == Elements(paths)
  {
    ManifestTerminals(paths);
    forall p, q | p in paths && q <= p && q != p ensures IsDir(fs, q) {
      AncestorIsDirectory(fs, paths, p, q);
    }
  }

  lemma AncestorIsDirectory(fs: Tree, paths: seq<Path>, p: Path, q: Path)
    requires Rooted(fs, paths) && p in paths && q <= p && q != p
    ensures IsDir(fs, q)
  {
    assert q == p[..|q|];
  }

  /** One root: its ancestors first, then itself. */
  method BeginRoot(cap: InputCapture, ghost r: Rules, paths: seq<Path>, i: nat, ghost all: set<Path>)
    returns (failure: Option<CaptureError>)
    requires i < |paths| && cap.Good(r, all) && forall a :: a in cap.ancestors ==> IsDir(cap.fs, a)
    requires Lookup(cap.fs, paths[i]).Some? ==> paths[i] in all
    requires cap.states.Keys == Elements(paths[..i]) && Rooted(cap.fs, paths[..i])
    modifies cap`states, cap`counts, cap`ancestors
    ensures cap.Good(r, all) && forall a :: a in cap.ancestors ==> IsDir(cap.fs, a)
    ensures failure.None? ==> cap.states.Keys == Elements(paths[..i + 1]) && Rooted(cap.fs, paths[..i + 1])
    ensures failure.Some? ==> !Rooted(cap.fs, paths) || Refusal(Sampled(cap.fs), all, cap.maxMembers, failure.value)
  {
    RootsMore(cap.fs, paths, i);
    failure := cap.BindAncestors(paths[i]);
    if failure.None? {
      failure := cap.Begin(paths[i], r, all);
    }
  }

  /** The first loop of `observe_inputs`: bind each root's ancestors, then sample the root. */
  method BeginRoots(cap: InputCapture, ghost r: Rules, paths: seq<Path>, ghost all: set<Path>)
    returns (failure: Option<CaptureError>)
    requires cap.Good(r, all) && cap.states == map[] && forall a :: a in cap.ancestors ==> IsDir(cap.fs, a)
    requires forall p :: p in paths && Lookup(cap.fs, p).Some? ==> p in all
    modifies cap`states, cap`counts, cap`ancestors
    ensures cap.Good(r, all)
    ensures failure.None? ==> cap.states.Keys == Elements(paths) && Rooted(cap.fs, paths)
    ensures failure.Some? ==> !Rooted(cap.fs, paths) || Refusal(Sampled(cap.fs), all, cap.maxMembers, failure.value)
  {
    failure := None;
    var i := 0;
    assert cap.states.Keys == Elements(paths[..0]);
    while i < |paths| && failure.None?
      invariant 0 <= i <= |paths|
      invariant cap.Good(r, all) && forall a :: a in cap.ancestors ==> IsDir(cap.fs, a)
      invariant failure.None? ==> cap.states.Keys == Elements(paths[..i]) && Rooted(cap.fs, paths[..i])
      invariant failure.Some? ==> !Rooted(cap.fs, paths) || Refusal(Sampled(cap.fs), all, cap.maxMembers, failure.value)
    {
      failure := BeginRoot(cap, r, paths, i, all);
      i := i + 1;
    }
    assert paths[..|paths|] == paths;
  }

  lemma RootsMore(fs: Tree, paths: seq<Path>, i: nat)
    requires i < |paths|
    ensures Elements(paths[..i + 1]) == Elements(paths[..i]) + {paths[i]}
    ensures Rooted(fs, paths[..i + 1]) <==>
      Rooted(fs, paths[..i]) && Lookup(fs, paths[i]).Some? && forall k | 0 <= k < |paths[i]| :: IsDir(fs, paths[i][..k])
    ensures Rooted(fs, paths) ==> Rooted(fs, paths[..i + 1])
  {
    assert paths[..i + 1] == paths[..i] + [paths[i]];
  }

  lemma SelectedRoots(r: Rules, excluded: set<Path>, fs: Tree, paths: seq<Path>)
    ensures forall p :: p in paths && Lookup(fs, p).Some? ==> p in Selected(r, excluded, fs, paths)
    ensures forall p :: p in paths ==> Under(r, excluded, fs, p) <= Selected(r, excluded, fs, paths)
  {
    forall p | p in paths && Lookup(fs, p).Some? ensures p in Under(r, excluded, fs, p) {
      UnderSelf(r, excluded, fs, p);
    }
  }

  lemma RefusedIsNotObservable(r: Rules, excluded: set<Path>, fs: Tree, paths: seq<Path>, bound: nat, e: CaptureError)
    requires forall p :: p in paths ==> p != []
    requires !Rooted(fs, paths) || Refusal(Sampled(fs), Selected(r, excluded, fs, paths), bound, e)
    ensures !Observable(r, excluded, fs, paths, bound)
  {
  }

  /** A root excluded by policy, or a node without a digest, leaves the manifest without one. */
  lemma FailedWalk(r: Rules, excluded: set<Path>, fs: Tree, paths: seq<Path>, bound: nat, e: CaptureError,
      cap: InputCapture)
    requires cap.fs == fs && cap.excluded == excluded && cap.maxMembers == bound
    requires forall p :: p in paths ==> p != []
    requires var shape := ManifestShape(paths);
             ShapeRefusal(cap, r, Selected(r, excluded, fs, paths), Terminals(shape),
                 AllSome(ColdShapes(r, cap.Gs(), shape), SortNames(shape.children.Keys)), e)
    ensures !Observable(r, excluded, fs, paths, bound)
  {
    var shape, gs := ManifestShape(paths), cap.Gs();
    LevelFailure(r, gs, shape);
    if e == ExcludedInput {
      forall t | t in Terminals(shape) && Excluded(r, t) ensures ColdRoot(r, gs, shape).None? {
        MissingTerminalFails(r, gs, shape, t);
      }
    }
  }

  /** Walking every root after sampling every root captures exactly the selected entries. */
  lemma RootsAreCaptured(r: Rules, excluded: set<Path>, fs: Tree, paths: seq<Path>)
    requires Rooted(fs, paths)
    ensures Elements(paths) + Selected(r, excluded, fs, paths) == Selected(r, excluded, fs, paths)
    ensures {} + Selected(r, excluded, fs, paths) == Selected(r, excluded, fs, paths)
  {
    SelectedRoots(r, excluded, fs, paths);
  }

  lemma CapturedIsObservable(r: Rules, excluded: set<Path>, fs: Tree, paths: seq<Path>, bound: nat,
      states: map<Path, EntryState>,
                             members: map<Path, InputMember>, counts: InputCounts)
    requires forall p :: p in paths ==> p != []
    requires Rooted(fs, paths) && ColdRoot(r, Pruned(fs, excluded, []), ManifestShape(paths)).Some?
    requires Inventory(Sampled(fs), Recorded(r, Pruned(fs, excluded, [])), Selected(r, excluded, fs, paths), bound,
            states, members, counts)
    requires states.Keys == Selected(r, excluded, fs, paths)
    ensures Observable(r, excluded, fs, paths, bound)
  {
    assert |states| == |states.Keys|;
    forall p | p in Selected(r, excluded, fs, paths) ensures StateAt(fs, p) != Some(EntryState(OtherKind, 0)) {
      assert p in states && Sampled(fs)(p) == Some(states[p]);
    }
  }

  /**
   `observe_inputs` over a filesystem that holds still. It succeeds exactly on observable
   requests; then the digest is that of the tree with the excluded subtrees deleted, and the
   captured members are exactly the selected entries, each recorded as what it is.
   */
  method ObserveInputs(fs: Tree, excluded: set<Path>, bound: nat, r: Rules, paths: seq<Path>)
    returns (res: Result<Digest, CaptureError>, cap: InputCapture)
    requires ResolvedManifest(excluded, fs, paths)
    ensures fresh(cap) && cap.fs == fs && cap.excluded == excluded && cap.maxMembers == bound
    ensures res.Ok? <==> Observable(r, excluded, fs, paths, bound)
    ensures res.Ok? ==> ColdRoot(r, Pruned(fs, excluded, []), ManifestShape(paths)) == Some(res.value)
    ensures res.Ok? ==> cap.members.Keys == cap.states.Keys == Selected(r, excluded, fs, paths)
    ensures cap.Good(r, Selected(r, excluded, fs, paths))
  {
    ghost var all := Selected(r, excluded, fs, paths);
    cap := new InputCapture(fs, excluded, bound);
    SelectedRoots(r, excluded, fs, paths);
    var failure := BeginRoots(cap, r, paths, all);
    if failure.Some? {
      res := Err(failure.value);
      RefusedIsNotObservable(r, excluded, fs, paths, bound, failure.value);
    } else {
      res := WalkRoots(cap, r, paths);
    }
  }

  /** The synthetic tree over the sampled roots, down to the last selected entry. */
  method WalkRoots(cap: InputCapture, r: Rules, paths: seq<Path>) returns (res: Result<Digest, CaptureError>)
    requires ResolvedManifest(cap.excluded, cap.fs, paths) && Rooted(cap.fs, paths)
    requires cap.Good(r, Selected(r, cap.excluded, cap.fs, paths)) && cap.states.Keys == Elements(paths)
            && cap.members == map[]
    modifies cap
    ensures cap.Good(r, Selected(r, cap.excluded, cap.fs, paths))
    ensures res.Ok? <==> Observable(r, cap.excluded, cap.fs, paths, cap.maxMembers)
    ensures res.Ok? ==> ColdRoot(r, Pruned(cap.fs, cap.excluded, []), ManifestShape(paths)) == Some(res.value)
    ensures res.Ok? ==> cap.members.Keys == cap.states.Keys == Selected(r, cap.excluded, cap.fs, paths)
  {
    var shape := ManifestShape(paths);
    ghost var all := Selected(r, cap.excluded, cap.fs, paths);
    SelectedRoots(r, cap.excluded, cap.fs, paths);
    RootedIsAntichain(cap.excluded, cap.fs, paths);
    RootsAreCaptured(r, cap.excluded, cap.fs, paths);
    assert cap.members.Keys == {};
    var nodes := WalkLevel(cap, r, shape, all);
    if nodes.Err? {
      res := Err(nodes.error);
      FailedWalk(r, cap.excluded, cap.fs, paths, cap.maxMembers, nodes.error, cap);
    } else {
      RootDigest(r, cap.Gs(), shape, nodes.value);
      var digest := HashNodes(r.sha, InputRootDomain, nodes.value);
      res := if digest.None? then Err(Overflow) else Ok(digest.value);
      if digest.Some? {
        CapturedIsObservable(r, cap.excluded, cap.fs, paths, cap.maxMembers, cap.states, cap.members, cap.counts);
      }
    }
  }

  lemma RootDigest(r: Rules, gs: Tree, s: Shape, nodes: seq<Node>)
    requires s.Branch? && NodesFor(ColdShapes(r, gs, s), SortNames(s.children.Keys), nodes)
    ensures ColdRoot(r, gs, s) == HashNodes(r.sha, InputRootDomain, nodes)
  {
    LevelNodes(r, gs, s, nodes);
    var v := Resolve(r, gs, s).value;
    assert LevelDigest(r.sha, InputRootDomain, v) == HashNodes(r.sha, InputRootDomain, nodes);
  }

  /** With nothing excluded, a scoped observation has the digest of the plain manifest. */
  lemma NothingExcluded(r: Rules, fs: Tree, paths: seq<Path>)
    requires forall p :: p in paths ==> p != []
    ensures ColdRoot(r, Pruned(fs, {}, []), ManifestShape(paths)) == ColdRoot(r, fs, ManifestShape(paths))
  {
    PrunedNothing(fs, []);
  }
}
