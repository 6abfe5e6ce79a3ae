/** When hot directory, path and manifest caches may be trusted, and how replaying a change repairs them. */
module HotCaches {
  import opened Base
  import opened PathText
  import opened Normalization
  import opened Encoding
  import opened MerkleSpec
  import opened ManifestTrie
  import opened Observation

  datatype Error = ExcludedPath | NotADirectory | NotFound | Overflow

  /** How a reconciled read fails: the computation raised, or the tree never stood still. */
  datatype Failure = Raised(error: Error) | UnstableObservation

  // ---------------------------------------------------------------- answers

  /** Some reported, identity-relevant path lies strictly below `rel`. */
  ghost predicate CoveredBelow(r: Rules, d: set<Path>, rel: Path) {
    exists p :: p in d && !Excluded(r, p) && rel <= p && p != rel
  }

  /** The digest of what lies below a path: of the directory there, or of an empty one if there is none. */
  function ColdBelow(r: Rules, fs: Tree, rel: Path): Option<Digest> {
    if IsDir(fs, rel) then ColdDirectory(r, fs, rel) else Some(HashBytes(r.sha, DirectoryDomain, []))
  }

  /**
   A directory answer given at `fs`, unless a path in `d` still affects it. A digest depends
   on nothing but what lies below the path, a failure also on the path itself.
   */
  ghost predicate DirectoryAnswer(r: Rules, fs: Tree, d: set<Path>, rel: Path, res: Result<Digest, Error>) {
    match res
    case Ok(x) => CoveredBelow(r, d, rel) || ColdBelow(r, fs, rel) == Some(x)
    case Err(_) => Covered(r, d, rel) || ColdDirectory(r, fs, rel) == None
  }

  ghost predicate NodeAnswer(r: Rules, fs: Tree, d: set<Path>, rel: Path, name: Name, res: Result<Node, Error>) {
    Covered(r, d, rel) || match res
      case Ok(x) => ColdNode(r, fs, rel, name) == Some(x)
      case Err(_) => ColdNode(r, fs, rel, name) == None
  }

  ghost predicate ShapeAnswer(r: Rules, fs: Tree, d: set<Path>, s: Shape, name: Name, res: Result<Node, Error>) {
    ShapeCovered(r, d, s) || match res
      case Ok(x) => ColdShape(r, fs, s, name) == Some(x)
      case Err(_) => ColdShape(r, fs, s, name) == None
  }

  lemma CoveredGrows(r: Rules, d: set<Path>, e: set<Path>, rel: Path)
    requires d <= e && Covered(r, d, rel)
    ensures Covered(r, e, rel)
  {
  }

  lemma BelowIsCovered(r: Rules, d: set<Path>, rel: Path)
    ensures CoveredBelow(r, d, rel) ==> Covered(r, d, rel)
  {
  }

  lemma ChildCoversBelow(r: Rules, d: set<Path>, rel: Path, n: Name)
    ensures Covered(r, d, rel + [n]) ==> CoveredBelow(r, d, rel)
  {
    if Covered(r, d, rel + [n]) {
      var p :| p in d && !Excluded(r, p) && rel + [n] <= p;
      assert rel <= rel + [n] && rel <= p && p != rel;
    }
  }

  lemma ChildOwn(fs: Tree, rel: Path, n: Name)
    ensures Own(fs, rel + [n]).Some? ==> IsDir(fs, rel)
    ensures IsDir(fs, rel) ==>
      Own(fs, rel + [n]) == (var c := Lookup(fs, rel).value.children; if n in c then Some(EntryOf(c[n])) else None)
  {
    LookupThrough(fs, rel, [n]);
    if IsDir(fs, rel) {
      ChildLookup(fs, rel, n);
    }
  }

  /** With nothing visible in it, a directory has the empty digest. */
  lemma EmptyBelow(r: Rules, fs: Tree, rel: Path)
    requires !Excluded(r, rel)
    requires IsDir(fs, rel) ==> VisibleNames(r, Lookup(fs, rel).value.children, rel) == {}
    ensures ColdBelow(r, fs, rel) == Some(HashBytes(r.sha, DirectoryDomain, []))
  {
    if IsDir(fs, rel) {
      var v := VisibleAt(r, fs, rel).value;
      assert v.children == map[];
      EmptyLevel(r.sha, v);
    }
  }

  lemma EmptyLevel(sha: Sha256, v: VTree)
    requires v.VDir? && v.children == map[]
    ensures LevelDigest(sha, DirectoryDomain, v) == Some(HashBytes(sha, DirectoryDomain, []))
  {
    assert SortNames(v.children.Keys) == [];
    assert EncodeNodes([]) == Some([]);
  }

  /** Two directories that differ in nothing below them show the same. */
  lemma SameBelow(r: Rules, fs: Tree, d: set<Path>, gs: Tree, e: set<Path>, rel: Path)
    requires Later(fs, d, gs, e) && !CoveredBelow(r, e, rel) && !Excluded(r, rel) && IsDir(fs, rel) && IsDir(gs, rel)
    ensures VisibleAt(r, fs, rel) == VisibleAt(r, gs, rel)
  {
    var t, u := Lookup(fs, rel).value, Lookup(gs, rel).value;
    forall n | !Skipped(r, rel + [n])
      ensures n in VisibleNames(r, t.children, rel) <==> n in VisibleNames(r, u.children, rel)
      ensures n in VisibleNames(r, t.children, rel) && n in VisibleNames(r, u.children, rel) ==>
                Visible(r, t.children[n], rel + [n]) == Visible(r, u.children[n], rel + [n])
    {
      ChildCoversBelow(r, e, rel, n);
      ChildLookup(fs, rel, n);
      ChildLookup(gs, rel, n);
      VisibleLater(r, fs, d, gs, e, rel + [n]);
    }
    assert VisibleNames(r, t.children, rel) == VisibleNames(r, u.children, rel);
    assert Visible(r, t, rel) == Visible(r, u, rel);
  }

  lemma ChangedIsCovered(r: Rules, fs: Tree, d: set<Path>, gs: Tree, e: set<Path>, p: Path)
    requires Later(fs, d, gs, e) && !Excluded(r, p)
    ensures Own(fs, p) == Own(gs, p) || Covered(r, e, p)
  {
    assert p <= p;
  }

  /** Where nothing is any more, nothing was shown either. */
  lemma NothingBelow(r: Rules, fs: Tree, d: set<Path>, gs: Tree, e: set<Path>, rel: Path)
    requires Later(fs, d, gs, e) && !CoveredBelow(r, e, rel) && IsDir(fs, rel) && !IsDir(gs, rel)
    ensures VisibleNames(r, Lookup(fs, rel).value.children, rel) == {}
  {
    forall n | n in Lookup(fs, rel).value.children && !Skipped(r, rel + [n]) ensures false {
      ChildOwn(fs, rel, n);
      ChildOwn(gs, rel, n);
      ChildCoversBelow(r, e, rel, n);
      ChangedIsCovered(r, fs, d, gs, e, rel + [n]);
    }
  }

  /** What lies below a path has the same digest as long as nothing below it changes. */
  lemma BelowLater(r: Rules, fs: Tree, d: set<Path>, gs: Tree, e: set<Path>, rel: Path)
    requires Later(fs, d, gs, e) && !CoveredBelow(r, e, rel) && !Excluded(r, rel)
    ensures ColdBelow(r, fs, rel) == ColdBelow(r, gs, rel)
  {
    if IsDir(fs, rel) && IsDir(gs, rel) {
      SameBelow(r, fs, d, gs, e, rel);
    } else if IsDir(fs, rel) {
      NothingBelow(r, fs, d, gs, e, rel);
      EmptyBelow(r, fs, rel);
    } else if IsDir(gs, rel) {
      NothingBelow(r, gs, {}, fs, e, rel);
      EmptyBelow(r, gs, rel);
    }
  }

  lemma NodeAnswerAges(r: Rules, m: Moment, n: Moment, rel: Path, name: Name, res: Result<Node, Error>)
    requires Tracked(m) && Passed(m, n) && NodeAnswer(r, m.fs, m.recent, rel, name, res)
    ensures NodeAnswer(r, n.fs, n.recent, rel, name, res)
  {
    Reports(m, n);
    var fs, d, gs, e := m.fs, m.recent, n.fs, n.recent;
    if !Covered(r, e, rel) {
      if Covered(r, d, rel) { CoveredGrows(r, d, e, rel); }
      if !Excluded(r, rel) { VisibleLater(r, fs, d, gs, e, rel); }
    }
  }

  lemma ShapeAnswerAges(r: Rules, m: Moment, n: Moment, s: Shape, name: Name, res: Result<Node, Error>)
    requires Tracked(m) && Passed(m, n) && ShapeAnswer(r, m.fs, m.recent, s, name, res)
    ensures ShapeAnswer(r, n.fs, n.recent, s, name, res)
  {
    Reports(m, n);
    var fs, d, gs, e := m.fs, m.recent, n.fs, n.recent;
    if !ShapeCovered(r, e, s) {
      CoverageGrows(r, d, e, s);
      ResolveLater(r, fs, d, gs, e, s);
    }
  }

  // ---------------------------------------------------------------- trusted caches

  /**
   A clean cached directory digest is that of what lies below its path, or a path in `d`
   strictly below has still to be replayed against it.
   */
  ghost predicate DirsSound(r: Rules, fs: Tree, d: set<Path>, cache: map<Path, Digest>, dirty: set<Path>) {
    forall rel :: rel in cache && rel !in dirty ==>
      !Excluded(r, rel) && DirectoryAnswer(r, fs, d, rel, Ok(cache[rel]))
  }

  /** A cached leaf is the cold one, or its own path has still to be replayed. */
  ghost predicate PathsSound(r: Rules, fs: Tree, d: set<Path>, cache: map<Path, Node>) {
    forall rel :: rel in cache ==>
      !Excluded(r, rel) && (rel in d || LeafAt(r, fs, rel) == Some(cache[rel]))
  }

  /** The nameless node of a file or link at a path. */
  function LeafAt(r: Rules, fs: Tree, rel: Path): Option<Node> {
    match Own(fs, rel)
    case Some(FileEntry(c, x)) => Some(FileNode([], FileDigest(r.sha, c), x))
    case Some(LinkEntry(g)) => Some(LinkNode([], g))
    case _ => None
  }

  lemma LeafIsCold(r: Rules, fs: Tree, rel: Path, name: Name)
    requires !Excluded(r, rel) && LeafAt(r, fs, rel).Some?
    ensures ColdNode(r, fs, rel, name) == Some(LeafAt(r, fs, rel).value.(name := name))
  {
  }

  lemma DirsLater(r: Rules, fs: Tree, d: set<Path>, gs: Tree, e: set<Path>, cache: map<Path, Digest>, dirty: set<Path>)
    requires DirsSound(r, fs, d, cache, dirty) && Later(fs, d, gs, e)
    ensures DirsSound(r, gs, e, cache, dirty)
  {
    forall rel | rel in cache && rel !in dirty && !CoveredBelow(r, e, rel)
      ensures DirectoryAnswer(r, gs, e, rel, Ok(cache[rel]))
    {
      assert CoveredBelow(r, d, rel) ==> CoveredBelow(r, e, rel);
      BelowLater(r, fs, d, gs, e, rel);
    }
  }

  lemma PathsLater(r: Rules, fs: Tree, d: set<Path>, gs: Tree, e: set<Path>, cache: map<Path, Node>)
    requires PathsSound(r, fs, d, cache) && Later(fs, d, gs, e)
    ensures PathsSound(r, gs, e, cache)
  {
  }

  lemma DirsAge(r: Rules, m: Moment, n: Moment, cache: map<Path, Digest>, dirty: set<Path>)
    requires Tracked(m) && Passed(m, n) && DirsSound(r, m.fs, m.recent, cache, dirty)
    ensures DirsSound(r, n.fs, n.recent, cache, dirty)
  {
    Reports(m, n);
    DirsLater(r, m.fs, m.recent, n.fs, n.recent, cache, dirty);
  }

  lemma PathsAge(r: Rules, m: Moment, n: Moment, cache: map<Path, Node>)
    requires Tracked(m) && Passed(m, n) && PathsSound(r, m.fs, m.recent, cache)
    ensures PathsSound(r, n.fs, n.recent, cache)
  {
    Reports(m, n);
  }

  lemma TrieAges(r: Rules, m: Moment, n: Moment, t: Trie)
    requires Tracked(m) && Passed(m, n) && TrieSound(r, m.fs, m.recent, t)
    ensures TrieSound(r, n.fs, n.recent, t)
  {
    Reports(m, n);
    TrieLater(r, m.fs, m.recent, n.fs, n.recent, t);
  }

  // ---------------------------------------------------------------- replay

  /** Every path at or above `p`. */
  function Upward(p: Path): set<Path> {
    set i | 0 <= i <= |p| :: p[..i]
  }

  lemma UpwardIsPrefix(p: Path, q: Path)
    ensures q in Upward(p) <==> q <= p
  {
    if q <= p {
      assert q == p[..|q|];
    }
  }

  lemma UpwardStep(p: Path)
    ensures Upward(p) == {p} + if p == [] then {} else Upward(p[..|p| - 1])
  {
    forall q ensures q in Upward(p) <==> q == p || (p != [] && q in Upward(p[..|p| - 1])) {
      UpwardIsPrefix(p, q);
      if p != [] {
        UpwardIsPrefix(p[..|p| - 1], q);
        if q <= p && q != p { ProperPrefix(q, p); }
        assert p[..|p| - 1] <= p;
      }
    }
  }

  lemma ProperPrefix(q: Path, p: Path)
    requires q <= p && q != p
    ensures p != [] && q <= p[..|p| - 1]
  {
    assert q == p[..|q|] && p == p[..|p|];
  }

  /** Where the ancestor walk of one dirty path starts: the path itself only if it is a directory now. */
  function WalkStart(p: Path, isDir: bool): Path {
    if isDir || p == [] then p else p[..|p| - 1]
  }

  function PathsDropped(cache: map<Path, Node>, p: Path, isDir: bool): map<Path, Node> {
    if isDir then map q | q in cache && !(p <= q) :: cache[q] else cache - {p}
  }

  /** A report about a directory drops every node at or below it, one about anything else its own. */
  lemma NodesDropped(cache: map<Path, Node>, p: Path, isDir: bool, q: Path)
    ensures q in PathsDropped(cache, p, isDir) <==> q in cache && (if isDir then !(p <= q) else p != q)
    ensures q in PathsDropped(cache, p, isDir) ==> PathsDropped(cache, p, isDir)[q] == cache[q]
  {
  }

  /** What replaying one reported path removes from the directory cache. */
  function GoneBy(r: Rules, fs: Tree, p: Path): set<Path> {
    if Excluded(r, p) then {} else Upward(WalkStart(p, IsDir(fs, p)))
  }

  /** What replaying all of them removes. */
  function Gone(r: Rules, fs: Tree, reported: set<Path>): set<Path> {
    set p, q | p in reported && q in GoneBy(r, fs, p) :: q
  }

  lemma GoneOne(r: Rules, fs: Tree, p: Path)
    ensures Gone(r, fs, {p}) == GoneBy(r, fs, p)
  {
  }

  lemma NothingGone(r: Rules, fs: Tree)
    ensures Gone(r, fs, {}) == {}
  {
  }

  lemma GoneMore(r: Rules, fs: Tree, reported: set<Path>, p: Path)
    ensures Gone(r, fs, reported + {p}) == Gone(r, fs, reported) + Gone(r, fs, {p})
  {
  }

  lemma GoneNext(r: Rules, fs: Tree, trusted: map<Path, Digest>, done: set<Path>, p: Path)
    ensures (trusted - Gone(r, fs, done)) - Gone(r, fs, {p}) == trusted - Gone(r, fs, done + {p})
  {
    GoneMore(r, fs, done, p);
  }

  /** Every clean cached digest is what a store shows. */
  ghost predicate Shows(view: map<Path, Digest>, cache: map<Path, Digest>, dirty: set<Path>) {
    forall rel :: rel in cache && rel !in dirty ==> rel in view && view[rel] == cache[rel]
  }

  lemma CachedIsShown(view: map<Path, Digest>, cache: map<Path, Digest>, dirty: set<Path>, rel: Path, x: Digest)
    requires Shows(view, cache, dirty)
    ensures Shows(view[rel := x], cache[rel := x], dirty - {rel})
  {
  }

  lemma CachedIsSound(
    r: Rules, fs: Tree, d: set<Path>, cache: map<Path, Digest>, dirty: set<Path>, rel: Path, x: Digest)
    requires DirsSound(r, fs, d, cache, dirty) && !Excluded(r, rel) && DirectoryAnswer(r, fs, d, rel, Ok(x))
    ensures DirsSound(r, fs, d, cache[rel := x], dirty - {rel})
  {
  }

  /** Replaying one reported path against the directory cache makes every clean digest right again. */
  lemma ReplayRepairsDirs(r: Rules, fs: Tree, d: set<Path>, cache: map<Path, Digest>, dirty: set<Path>, p: Path,
      isDir: bool)
    requires DirsSound(r, fs, d + {p}, cache, dirty)
    ensures var gone := Upward(WalkStart(p, isDir));
            DirsSound(r, fs, d, cache - gone, dirty + gone)
  {
    var gone := Upward(WalkStart(p, isDir));
    forall rel | rel in cache - gone && rel !in dirty + gone
      ensures DirectoryAnswer(r, fs, d, rel, Ok(cache[rel]))
    {
      UpwardIsPrefix(WalkStart(p, isDir), rel);
      if CoveredBelow(r, d + {p}, rel) && !CoveredBelow(r, d, rel) {
        ProperPrefix(rel, p);
      }
    }
  }

  lemma ReplayRepairsPaths(r: Rules, fs: Tree, d: set<Path>, cache: map<Path, Node>, p: Path, isDir: bool)
    requires PathsSound(r, fs, d + {p}, cache)
    ensures PathsSound(r, fs, d, PathsDropped(cache, p, isDir))
  {
  }

  /** A report of an excluded path concerns no cached directory or leaf. */
  lemma ExcludedReportIsMoot(r: Rules, fs: Tree, d: set<Path>, dirs: map<Path, Digest>, dirty: set<Path>,
      leaves: map<Path, Node>, p: Path)
    requires Excluded(r, p)
    requires DirsSound(r, fs, d + {p}, dirs, dirty) && PathsSound(r, fs, d + {p}, leaves)
    ensures DirsSound(r, fs, d, dirs, dirty) && PathsSound(r, fs, d, leaves)
  {
    forall rel | rel in dirs && rel !in dirty ensures DirectoryAnswer(r, fs, d, rel, Ok(dirs[rel])) {
      assert CoveredBelow(r, d + {p}, rel) ==> CoveredBelow(r, d, rel);
    }
  }

  // ---------------------------------------------------------------- assembling a directory

  /** Nodes produced one by one for the shown names of a directory, each good at `fs`. */
  ghost predicate NodesMatch(r: Rules, fs: Tree, d: set<Path>, rel: Path, shown: seq<Name>, nodes: seq<Node>) {
    && |nodes| == |shown|
    && forall k | 0 <= k < |shown| :: NodeAnswer(r, fs, d, rel + [shown[k]], shown[k], Ok(nodes[k]))
  }

  lemma NodesMatchAges(r: Rules, m: Moment, n: Moment, rel: Path, shown: seq<Name>, nodes: seq<Node>)
    requires Tracked(m) && Passed(m, n) && NodesMatch(r, m.fs, m.recent, rel, shown, nodes)
    ensures NodesMatch(r, n.fs, n.recent, rel, shown, nodes)
  {
    forall k | 0 <= k < |shown| ensures NodeAnswer(r, n.fs, n.recent, rel + [shown[k]], shown[k], Ok(nodes[k])) {
      NodeAnswerAges(r, m, n, rel + [shown[k]], shown[k], Ok(nodes[k]));
    }
  }

  lemma NodesMatchAppend(r: Rules, fs: Tree, d: set<Path>, rel: Path, shown: seq<Name>, nodes: seq<Node>, n: Name,
      node: Node)
    requires NodesMatch(r, fs, d, rel, shown, nodes) && NodeAnswer(r, fs, d, rel + [n], n, Ok(node))
    ensures NodesMatch(r, fs, d, rel, shown + [n], nodes + [node])
  {
  }

  /** The names a listing shows, in the order nodes are hashed. */
  ghost predicate ShowsUpTo(r: Rules, rel: Path, listing: map<Name, Entry>, names: seq<Name>, shown: seq<Name>) {
    && StrictlySorted(shown)
    && forall n :: n in shown <==> n in names && n in listing && !Skipped(r, rel + [n]) && listing[n] != SpecialEntry
  }

  lemma ChildCovers(r: Rules, d: set<Path>, rel: Path, n: Name)
    ensures Covered(r, d, rel + [n]) ==> Covered(r, d, rel)
  {
    if Covered(r, d, rel + [n]) {
      var p :| p in d && !Excluded(r, p) && rel + [n] <= p;
      assert rel <= rel + [n];
    }
  }

  /** A directory with nothing changed below it still lists what it listed. */
  lemma ListingPersists(r: Rules, m: Moment, now: Moment, rel: Path, n: Name)
    requires Tracked(m) && Passed(m, now) && !CoveredBelow(r, now.recent, rel) && IsDir(m.fs, rel) && IsDir(now.fs, rel)
    ensures !Skipped(r, rel + [n]) ==>
              var a, b := Listing(Lookup(m.fs, rel).value), Listing(Lookup(now.fs, rel).value);
              (n in a <==> n in b) && (n in a ==> a[n] == b[n])
  {
    Reports(m, now);
    ChildOwn(m.fs, rel, n);
    ChildOwn(now.fs, rel, n);
    ChildCoversBelow(r, now.recent, rel, n);
    if !Skipped(r, rel + [n]) {
      EntryPersists(r, m, now, rel + [n]);
    }
  }

  lemma ListedIsVisible(r: Rules, m: Moment, now: Moment, rel: Path, n: Name)
    requires Tracked(m) && Passed(m, now) && !CoveredBelow(r, now.recent, rel) && IsDir(m.fs, rel) && IsDir(now.fs, rel)
    ensures var listing := Listing(Lookup(m.fs, rel).value);
            n in VisibleAt(r, now.fs, rel).value.children <==>
              n in listing && !Skipped(r, rel + [n]) && listing[n] != SpecialEntry
  {
    ListingPersists(r, m, now, rel, n);
  }

  lemma ShownIsVisible(r: Rules, m: Moment, now: Moment, rel: Path, shown: seq<Name>)
    requires Tracked(m) && Passed(m, now) && !Excluded(r, rel) && IsDir(m.fs, rel)
    requires !CoveredBelow(r, now.recent, rel) && IsDir(now.fs, rel)
    requires ShowsUpTo(r, rel, Listing(Lookup(m.fs, rel).value), SortNames(Lookup(m.fs, rel).value.children.Keys),
            shown)
    ensures shown == SortNames(VisibleAt(r, now.fs, rel).value.children.Keys)
  {
    var v := VisibleAt(r, now.fs, rel).value;
    forall n ensures n in shown <==> n in v.children {
      ListedIsVisible(r, m, now, rel, n);
    }
    StrictlySortedUnique(shown, SortNames(v.children.Keys));
  }

  lemma VisibleChild(r: Rules, fs: Tree, rel: Path, n: Name)
    requires IsDir(fs, rel) && n in VisibleAt(r, fs, rel).value.children
    ensures VisibleAt(r, fs, rel + [n]) == Some(VisibleAt(r, fs, rel).value.children[n])
    ensures !Skipped(r, rel + [n])
  {
    ChildLookup(fs, rel, n);
  }

  /** The nodes of what is now a directory are those of its visible children. */
  lemma LevelAssembledNow(r: Rules, now: Moment, rel: Path, shown: seq<Name>, nodes: seq<Node>)
    requires IsDir(now.fs, rel) && !Excluded(r, rel) && !CoveredBelow(r, now.recent, rel)
    requires shown == SortNames(VisibleAt(r, now.fs, rel).value.children.Keys)
    requires NodesMatch(r, now.fs, now.recent, rel, shown, nodes)
    ensures ColdDirectory(r, now.fs, rel) == HashNodes(r.sha, DirectoryDomain, nodes)
  {
    var v := VisibleAt(r, now.fs, rel).value;
    forall k | 0 <= k < |shown| ensures NodeOf(r.sha, v.children[shown[k]], shown[k]) == Some(nodes[k]) {
      assert shown[k] in shown;
      VisibleChild(r, now.fs, rel, shown[k]);
      ChildCoversBelow(r, now.recent, rel, shown[k]);
      assert NodeAnswer(r, now.fs, now.recent, rel + [shown[k]], shown[k], Ok(nodes[k]));
    }
    NodesOfPointwise(r.sha, v, shown);
    assert NodesOf(r.sha, v, shown).value == nodes;
  }

  lemma ShownAreVisible(r: Rules, rel: Path, children: map<Name, Tree>, names: seq<Name>, shown: seq<Name>)
    requires ShowsUpTo(r, rel, Listing(Dir(children)), names, shown)
    ensures Elements(shown) <= VisibleNames(r, children, rel)
  {
  }

  lemma EmptyElements<T>(s: seq<T>)
    ensures Elements(s) == {} ==> s == []
  {
    assert s != [] ==> s[0] in Elements(s);
  }

  /** Of a directory that is gone, with nothing changed below it, nothing was shown. */
  lemma NothingShown(r: Rules, m: Moment, now: Moment, rel: Path, shown: seq<Name>)
    requires Tracked(m) && Passed(m, now) && !Excluded(r, rel) && IsDir(m.fs, rel)
    requires ShowsUpTo(r, rel, Listing(Lookup(m.fs, rel).value), SortNames(Lookup(m.fs, rel).value.children.Keys),
            shown)
    requires !CoveredBelow(r, now.recent, rel) && !IsDir(now.fs, rel)
    ensures shown == []
  {
    Reports(m, now);
    var children := Lookup(m.fs, rel).value.children;
    ShownAreVisible(r, rel, children, SortNames(children.Keys), shown);
    NothingBelow(r, m.fs, m.recent, now.fs, now.recent, rel);
    EmptyElements(shown);
  }

  /** A complete list of good nodes hashes to the digest of what lies below the directory. */
  lemma DirectoryAssembled(r: Rules, m: Moment, now: Moment, rel: Path, shown: seq<Name>, nodes: seq<Node>)
    requires Tracked(m) && Passed(m, now) && !Excluded(r, rel) && IsDir(m.fs, rel)
    requires ShowsUpTo(r, rel, Listing(Lookup(m.fs, rel).value), SortNames(Lookup(m.fs, rel).value.children.Keys),
            shown)
    requires NodesMatch(r, now.fs, now.recent, rel, shown, nodes)
    ensures CoveredBelow(r, now.recent, rel) || ColdBelow(r, now.fs, rel) == HashNodes(r.sha, DirectoryDomain, nodes)
  {
    if !CoveredBelow(r, now.recent, rel) {
      if IsDir(now.fs, rel) {
        ShownIsVisible(r, m, now, rel, shown);
        LevelAssembledNow(r, now, rel, shown, nodes);
      } else {
        NothingShown(r, m, now, rel, shown);
        assert EncodeNodes([]) == Some([]);
      }
    }
  }

  /** If one shown child cannot be digested, neither can the directory. */
  lemma ChildFailureIsFatal(r: Rules, m: Moment, now: Moment, rel: Path, n: Name, error: Error)
    requires Tracked(m) && Passed(m, now) && !Excluded(r, rel) && IsDir(m.fs, rel)
    requires var listing := Listing(Lookup(m.fs, rel).value); n in listing && listing[n] != SpecialEntry
    requires !Skipped(r, rel + [n])
    requires NodeAnswer(r, now.fs, now.recent, rel + [n], n, Err(error))
    ensures DirectoryAnswer(r, now.fs, now.recent, rel, Err(error))
  {
    Reports(m, now);
    var fs, d, gs, e := m.fs, m.recent, now.fs, now.recent;
    if !Covered(r, e, rel) {
      EntryPersists(r, m, now, rel);
      BelowIsCovered(r, e, rel);
      ListingPersists(r, m, now, rel, n);
      ChildCovers(r, e, rel, n);
      ChildLookup(gs, rel, n);
      var v := VisibleAt(r, gs, rel).value;
      assert n in v.children && NodeOf(r.sha, v.children[n], n) == None;
      var names := SortNames(v.children.Keys);
      assert n in names;
      var i :| 0 <= i < |names| && names[i] == n;
      NodesOfPointwise(r.sha, v, names);
    }
  }

  /** An entry that is not what the listing said has changed, so its directory is covered. */
  lemma ChangedChildCovers(r: Rules, m: Moment, now: Moment, rel: Path, n: Name)
    requires Tracked(m) && Passed(m, now) && !Skipped(r, rel + [n])
    requires Own(m.fs, rel + [n]) != Own(now.fs, rel + [n])
    ensures Covered(r, now.recent, rel + [n]) && Covered(r, now.recent, rel)
  {
    Reports(m, now);
    assert rel <= rel + [n];
  }

  /** A child that was a directory when listed: its digest, or its failure, is its node's. */
  lemma DirectoryIsNode(r: Rules, m: Moment, now: Moment, rel: Path, name: Name, sub: Result<Digest, Error>)
    requires Tracked(m) && Passed(m, now) && !Excluded(r, rel) && IsDir(m.fs, rel)
    requires DirectoryAnswer(r, now.fs, now.recent, rel, sub)
    ensures NodeAnswer(r, now.fs, now.recent, rel, name,
            match sub case Ok(x) => Ok(DirNode(name, x)) case Err(e) => Err(e))
  {
    EntryPersists(r, m, now, rel);
    BelowIsCovered(r, now.recent, rel);
  }

  lemma ShownExtends(r: Rules, rel: Path, listing: map<Name, Entry>, names: seq<Name>, i: nat, shown: seq<Name>)
    requires i < |names| && StrictlySorted(names)
    requires ShowsUpTo(r, rel, listing, names[..i], shown)
    requires names[i] in listing
    ensures var n := names[i];
            ShowsUpTo(r, rel, listing, names[..i + 1],
                      if !Skipped(r, rel + [n]) && listing[n] != SpecialEntry then shown + [n] else shown)
  {
    var n := names[i];
    assert names[..i + 1] == names[..i] + [n];
    forall k | 0 <= k < |shown| ensures LexLess(shown[k], n) {
      assert shown[k] in shown;
      assert shown[k] in names[..i];
    }
  }

  lemma EntryPersists(r: Rules, m: Moment, now: Moment, rel: Path)
    requires Tracked(m) && Passed(m, now) && !Excluded(r, rel)
    ensures Covered(r, now.recent, rel) || Own(m.fs, rel) == Own(now.fs, rel)
  {
    Reports(m, now);
  }

  /** A path that was neither link nor file, and then no directory, has no node. */
  lemma NeitherLeafNorDirectory(r: Rules, m: Moment, now: Moment, rel: Path, name: Name)
    requires Tracked(m) && Passed(m, now) && !Excluded(r, rel)
    requires Covered(r, m.recent, rel) || LeafAt(r, m.fs, rel).None?
    requires !IsDir(now.fs, rel)
    ensures NodeAnswer(r, now.fs, now.recent, rel, name, Err(NotFound))
    ensures Covered(r, now.recent, rel) || Missing(r, now.fs, rel)
  {
    Reports(m, now);
    if !Covered(r, now.recent, rel) {
      if Covered(r, m.recent, rel) { CoveredGrows(r, m.recent, now.recent, rel); }
      EntryPersists(r, m, now, rel);
    }
  }

  /** A one-path shape is answered exactly by the node of that path. */
  lemma LeafShape(r: Rules, fs: Tree, d: set<Path>, rel: Path, name: Name)
    ensures ShapeCovered(r, d, Leaf(rel)) <==> Covered(r, d, rel)
    ensures ColdShape(r, fs, Leaf(rel), name) == ColdNode(r, fs, rel, name)
  {
    assert Terminals(Leaf(rel)) == {rel};
  }

  lemma DistinctNames(names: seq<Name>, i: nat)
    requires StrictlySorted(names) && i < |names|
    ensures forall j | 0 <= j < |names| && j != i :: names[j] != names[i]
  {
    forall j | 0 <= j < |names| && j != i ensures names[j] != names[i] {
      LexTotal(names[i], names[i]);
    }
  }

  /** A finished level gives the inner node's digest, and may be cached as clean. */
  lemma InnerLevel(r: Rules, fs: Tree, d: set<Path>, t: Trie, nodes: Result<seq<Node>, Error>)
    requires t.terminal.None? && TrieSound(r, fs, d, t)
    requires LevelAnswer(r, fs, d, ShapeOf(t), if nodes.Ok? then Some(nodes.value) else None)
    ensures nodes.Err? ==> ShapeAnswer(r, fs, d, ShapeOf(t), t.segment, Err(nodes.error))
    ensures nodes.Ok? && HashNodes(r.sha, ManifestDirectoryDomain, nodes.value).None? ==>
              ShapeAnswer(r, fs, d, ShapeOf(t), t.segment, Err(Overflow))
    ensures nodes.Ok? && HashNodes(r.sha, ManifestDirectoryDomain, nodes.value).Some?
            && (forall n | n in t.children :: !t.children[n].dirty) ==>
              var x := HashNodes(r.sha, ManifestDirectoryDomain, nodes.value).value;
              && ShapeAnswer(r, fs, d, ShapeOf(t), t.segment, Ok(DirNode(t.segment, x)))
              && TrieSound(r, fs, d, t.(cachedDigest := Some(x), dirty := false))
              && ShapeOf(t.(cachedDigest := Some(x), dirty := false)) == ShapeOf(t)
  {
    ColdLevel(r, fs, ShapeOf(t), t.segment);
    if nodes.Ok? && HashNodes(r.sha, ManifestDirectoryDomain, nodes.value).Some? {
      var u := t.(cachedDigest := Some(HashNodes(r.sha, ManifestDirectoryDomain, nodes.value).value), dirty := false);
      assert ShapeOf(u).children == ShapeOf(t).children;
    }
  }

  lemma ColdLevel(r: Rules, fs: Tree, s: Shape, name: Name)
    requires s.Branch?
    ensures ColdShape(r, fs, s, name) ==
      match Resolve(r, fs, s)
      case None => None
      case Some(v) =>
        match NodesOf(r.sha, v, SortNames(v.children.Keys))
        case None => None
        case Some(nodes) =>
          match HashNodes(r.sha, ManifestDirectoryDomain, nodes)
          case None => None
          case Some(x) => Some(DirNode(name, x))
  {
    if Resolve(r, fs, s).Some? {
      var v := Resolve(r, fs, s).value;
      assert LevelDomain(v) == ManifestDirectoryDomain;
      var level := LevelDigest(r.sha, ManifestDirectoryDomain, v);
      assert NodeOf(r.sha, v, name) == match level case None => None case Some(x) => Some(DirNode(name, x));
    }
  }

  lemma ChildRead(r: Rules, m: Moment, now: Moment, t: Trie, pos: Path, n: Name, c: Trie)
    requires Tracked(m) && Passed(m, now)
    requires Placed(t, pos) && t.terminal.None? && n in t.children && TrieSound(r, m.fs, m.recent, t)
    requires TrieSound(r, now.fs, now.recent, c) && Placed(c, pos + [n]) && ShapeOf(c) == ShapeOf(t.children[n])
            && c.segment == n
    requires c.dirty ==> t.children[n].dirty
    ensures var u := t.(children := t.children[n := c]);
            TrieSound(r, now.fs, now.recent, u) && Placed(u, pos) && ShapeOf(u) == ShapeOf(t)
  {
    TrieAges(r, m, now, t);
    StoredChild(r, now.fs, now.recent, t, pos, n, c);
  }

  lemma RootLevel(r: Rules, fs: Tree, d: set<Path>, s: Shape, nodes: Result<seq<Node>, Error>)
    requires s.Branch? && LevelAnswer(r, fs, d, s, if nodes.Ok? then Some(nodes.value) else None)
    ensures RootAnswer(r, fs, d, s, match nodes case Ok(ns) => HashNodes(r.sha, InputRootDomain,
            ns) case Err(_) => None)
  {
  }

  // ---------------------------------------------------------------- two limits of the protocol

  const SOME_DIR: Name := [100]
  const SOME_SUB: Name := [115]
  const SOME_FILE: Name := [102]

  /**
   Even an exact report leaves the digest of a vanished directory behind: the directory is
   gone, its path was reported and replayed, and its old digest is still cached and clean.
   */
  lemma VanishedDirectoryStaysCached(sha: Sha256, x: Digest)
    ensures
      var r := Rules(sha, {}, {}, {});
      var fs, gs := Dir(map[SOME_DIR := Dir(map[])]), Dir(map[]);
      var p := [SOME_DIR];
      var gone := Upward(WalkStart(p, IsDir(gs, p)));
      && Changed(fs, gs) == {p}
      && p in map[p := x] - gone && p !in {} + gone
      && ColdDirectory(r, fs, p).Some? && ColdDirectory(r, gs, p) == None
  {
    var r := Rules(sha, {}, {}, {});
    var fs, gs := Dir(map[SOME_DIR := Dir(map[])]), Dir(map[]);
    var p := [SOME_DIR];
    forall q ensures q in Changed(fs, gs) <==> q == p {
      ChangedIsExact(fs, gs, q);
      if q != [] {
        assert q == [q[0]] + q[1..];
        LookupBelow(fs, q[0], q[1..]);
        LookupBelow(gs, q[0], q[1..]);
      }
    }
    assert !IsDir(gs, p) && WalkStart(p, IsDir(gs, p)) == [];
    UpwardIsPrefix([], p);
    LookupBelow(fs, SOME_DIR, []);
    assert [SOME_DIR] + [] == p;
    EmptyDirectoryDigest(r, fs, p);
  }

  const BACKSLASHED: Name := [115, BACKSLASH, 120]

  /**
   A change below a name with a backslash is journalled under another path, so that even an exact
   report leaves a clean, wrong digest of that directory in the cache.
   */
  lemma BackslashKeepsAWrongDigest(sha: Sha256)
    ensures
      var r := Rules(sha, {}, {}, {});
      var fs, gs := Dir(map[BACKSLASHED := Dir(map[])]), Dir(map[BACKSLASHED := Dir(map[SOME_FILE := Link([])])]);
      var dir, changed := [BACKSLASHED], [BACKSLASHED, SOME_FILE];
      var gone := Gone(r, gs, NamedBy({JoinPath(changed)}));
      && Own(fs, changed) != Own(gs, changed) && !Portable(changed)
      && dir !in gone && ColdDirectory(r, fs, dir).Some? && ColdDirectory(r, fs, dir) != ColdDirectory(r, gs, dir)
  {
    var r := Rules(sha, {}, {}, {});
    var below := Dir(map[SOME_FILE := Link([])]);
    var fs, gs := Dir(map[BACKSLASHED := Dir(map[])]), Dir(map[BACKSLASHED := below]);
    var dir, changed := [BACKSLASHED], [BACKSLASHED, SOME_FILE];
    assert BACKSLASH in BACKSLASHED && [BACKSLASHED] + [] == dir && [BACKSLASHED] + [SOME_FILE] == changed;
    LookupBelow(fs, BACKSLASHED, []);
    LookupBelow(gs, BACKSLASHED, []);
    ChildLookup(fs, dir, SOME_FILE);
    ChildLookup(gs, dir, SOME_FILE);
    EmptyDirectoryDigest(r, fs, dir);
    OneLinkDigest(r, gs, dir);
    assert BACKSLASHED in changed && BACKSLASHED in dir && !PortableName(BACKSLASHED);
    forall p | p in NamedBy({JoinPath(changed)}) ensures dir !in Upward(WalkStart(p, IsDir(gs, p))) {
      NormalizedNames(JoinPath(changed));
      assert p != [] ==> p[0] in p;
      UpwardIsPrefix(WalkStart(p, IsDir(gs, p)), dir);
    }
  }

  lemma EmptyDirectoryDigest(r: Rules, fs: Tree, p: Path)
    requires !Excluded(r, p) && Lookup(fs, p) == Some(Dir(map[]))
    ensures ColdDirectory(r, fs, p) == Some(HashBytes(r.sha, DirectoryDomain, []))
  {
    var v := VisibleAt(r, fs, p).value;
    assert v.children == map[];
    assert SortNames(v.children.Keys) == [];
    assert EncodeNodes([]) == Some([]);
  }

  /**
   The report must name every changed path. Naming only the directory above a change leaves a
   clean, wrong digest in the cache: the walk drops that directory and what is above it, and
   nothing below it.
   */
  lemma ReportingOnlyTheDirectoryIsNotEnough(sha: Sha256)
    ensures
      var r := Rules(sha, {}, {}, {});
      var fs, gs := Dir(map[SOME_DIR := Dir(map[SOME_SUB := Dir(map[])])]),
                    Dir(map[SOME_DIR := Dir(map[SOME_SUB := Dir(map[SOME_FILE := Link([])])])]);
      var reported, sub := [SOME_DIR], [SOME_DIR, SOME_SUB];
      var gone := Upward(WalkStart(reported, IsDir(gs, reported)));
      && ColdDirectory(r, fs, sub).Some? && ColdDirectory(r, gs, sub).Some?
      && sub in map[sub := ColdDirectory(r, fs, sub).value] - gone && sub !in gone
      && ColdDirectory(r, fs, sub) != ColdDirectory(r, gs, sub)
  {
    var r := Rules(sha, {}, {}, {});
    var below := Dir(map[SOME_FILE := Link([])]);
    var fs, gs := Dir(map[SOME_DIR := Dir(map[SOME_SUB := Dir(map[])])]),
        Dir(map[SOME_DIR := Dir(map[SOME_SUB := below])]);
    var reported, sub := [SOME_DIR], [SOME_DIR, SOME_SUB];
    UpwardIsPrefix(reported, sub);
    assert reported + [SOME_SUB] == sub && [SOME_DIR] + [] == reported;
    LookupBelow(fs, SOME_DIR, []);
    LookupBelow(gs, SOME_DIR, []);
    ChildLookup(fs, reported, SOME_SUB);
    ChildLookup(gs, reported, SOME_SUB);
    EmptyDirectoryDigest(r, fs, sub);
    OneLinkDigest(r, gs, sub);
  }

  lemma OneLinkDigest(r: Rules, fs: Tree, p: Path)
    requires r.walkIgnore == {} && r.mandatory == {} && r.excluded == {}
    requires Lookup(fs, p) == Some(Dir(map[SOME_FILE := Link([])]))
    ensures ColdDirectory(r, fs, p).Some? && ColdDirectory(r, fs, p).value.size > 0
  {
    var t, v := Lookup(fs, p).value, VisibleAt(r, fs, p).value;
    assert !Skipped(r, p + [SOME_FILE]);
    assert VisibleNames(r, t.children, p) == {SOME_FILE};
    assert t == Dir(map[SOME_FILE := Link([])]) && t.children[SOME_FILE] == Link([]);
    assert Visible(r, Link([]), p + [SOME_FILE]) == VLink([]);
    assert v == Visible(r, t, p) && v.children.Keys == {SOME_FILE};
    assert v.children[SOME_FILE] == Visible(r, t.children[SOME_FILE], p + [SOME_FILE]);
    assert v.children == map[SOME_FILE := VLink([])];
    StrictlySortedUnique(SortNames(v.children.Keys), [SOME_FILE]);
    OneLinkLevel(r.sha, v);
  }

  lemma OneLinkLevel(sha: Sha256, v: VTree)
    requires v.VDir? && v.children == map[SOME_FILE := VLink([])]
    requires SortNames(v.children.Keys) == [SOME_FILE]
    ensures LevelDigest(sha, DirectoryDomain, v).Some? && LevelDigest(sha, DirectoryDomain, v).value.size > 0
  {
    var node := LinkNode(SOME_FILE, []);
    var names: seq<Name> := [SOME_FILE];
    assert NodeOf(sha, v.children[names[0]], names[0]) == Some(node);
    NodesOfPointwise(sha, v, names);
    assert NodesOf(sha, v, names).value == [node];
    assert Encodable(node) by { assert Capacity(8) > 1; }
    assert EncodeNodes([node][1..]) == Some([]);
    assert EncodeNodes([node]) == Some(EncodeNode(node) + []);
  }
}
