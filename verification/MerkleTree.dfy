/**
 The incremental Merkle tree under a concurrent watcher: every method may be interleaved
 with edits at every observation of the filesystem.
 */
module MerkleTrees {
  import opened Base
  import opened PathText
  import opened Normalization
  import opened Encoding
  import opened MerkleSpec
  import opened ManifestTrie
  import opened Observation
  import opened HotCaches
  import opened DirectoryStores
  import opened ManifestTrees
  import opened Manifests

  class MerkleTree {
    const w: Workspace
    const store: DirectoryStore
    const r: Rules
    var dirCache: map<Path, Digest>
    var dirtyDirs: set<Path>
    var pathCache: map<Path, Node>
    var trees: map<Bytes, ManifestTree>

    constructor (workspace: Workspace, directories: DirectoryStore, rules: Rules)
      requires workspace.Valid() && OnTime(workspace.Now())
      ensures w == workspace && store == directories && r == rules && AtRest() && Trusted() == map[]
    {
      w, store, r := workspace, directories, rules;
      dirCache, dirtyDirs, pathCache, trees := map[], {[]}, map[], map[];
    }

    // -------------------------------------------------------------- what may be trusted

    ghost predicate TreesValid()
      reads this, trees.Values
    {
      forall k :: k in trees ==> trees[k].Valid()
    }

    /** The digests a read may use: cached and not marked dirty. */
    ghost function Trusted(): map<Path, Digest>
      reads this
    {
      dirCache - dirtyDirs
    }

    /** What will be left of them once the journal has been replayed. */
    ghost function Remembered(): map<Path, Digest>
      reads this, w, w.tracker
    {
      Left(r, w.fs, Trusted(), w.tracker.state, w.tracker.paths)
    }

    /** The directory store shows every trusted digest. */
    ghost predicate Mirrored()
      reads this, store
    {
      Shows(store.View(), dirCache, dirtyDirs)
    }

    /** Every hot cache is cold-equal at the current tree, except where a path in `d` has still to be replayed. */
    ghost predicate AllSound(d: set<Path>)
      reads this, w, store, trees.Values
    {
      && Mirrored()
      && DirsSound(r, w.fs, d, dirCache, dirtyDirs)
      && PathsSound(r, w.fs, d, pathCache)
      && TreesSound(w.fs, d)
    }

    /** Unless continuity was lost, only journalled paths are untrusted. */
    ghost predicate Ready()
      reads this, w, w.tracker, store, trees.Values
    {
      w.Valid() && TreesValid() && (w.tracker.state != Unknown ==> AllSound(w.tracker.paths))
    }

    /** Between requests: ready, and the tree is where its own plan has led it. */
    ghost predicate AtRest()
      reads this, w, w.tracker, store, trees.Values
    {
      Ready() && OnTime(w.Now())
    }

    /** Only the environment has moved on. */
    twostate predicate Elapsed()
      reads w, w.tracker
    {
      w.Valid() && Passed(old(w.Now()), w.Now()) && old(w.clock) <= w.clock
    }

    /** The directory cache is trustworthy up to what changed since the reader's snapshot. */
    ghost predicate DirsHot()
      reads this, w, store
    {
      Mirrored() && DirsSound(r, w.fs, w.recent, dirCache, dirtyDirs)
    }

    // -------------------------------------------------------------- reading one directory

    /** Cache a directory's digest and pass it on to the store. */
    method CacheDirectory(rel: Path, digest: Digest)
      requires DirsHot() && !Excluded(r, rel) && DirectoryAnswer(r, w.fs, w.recent, rel, Ok(digest))
      modifies this`dirCache, this`dirtyDirs, store`pending
      ensures DirsHot() && Trusted() == old(Trusted())[rel := digest]
    {
      CachedIsSound(r, w.fs, w.recent, dirCache, dirtyDirs, rel, digest);
      CachedIsShown(store.View(), dirCache, dirtyDirs, rel, digest);
      dirCache := dirCache[rel := digest];
      dirtyDirs := dirtyDirs - {rel};
      store.Put(rel, digest);
    }

    method Look(rel: Path) returns (e: Option<Entry>)
      requires w.Valid() && DirsHot()
      modifies w, w.tracker
      ensures Elapsed() && DirsHot() && e == Own(w.fs, rel) && w.clock == old(w.clock) + 1
    {
      e := w.Probe(rel);
      DirsAge(r, old(w.Now()), w.Now(), dirCache, dirtyDirs);
    }

    /** The listed file is still there, and this is its identity. */
    ghost predicate InfoGood(rel: Path, n: Name, infos: map<Name, (Digest, bool)>)
      reads w
    {
      n in infos && NodeAnswer(r, w.fs, w.recent, rel + [n], n, Ok(FileNode(n, infos[n].0, infos[n].1)))
    }

    /** Content identities of the listed files, each read at its own moment. */
    method FileInfos(rel: Path, listing: map<Name, Entry>, names: seq<Name>)
      returns (infos: map<Name, (Digest, bool)>, ghost vanished: Option<Name>, failed: bool)
      requires w.Valid() && DirsHot() && forall n :: n in names ==> n in listing
      modifies w, w.tracker
      ensures Elapsed() && DirsHot()
      ensures !failed ==> forall n :: n in names && listing[n].FileEntry? && !Skipped(r, rel + [n]) ==>
              InfoGood(rel, n, infos)
      ensures failed ==> vanished.Some? && vanished.value in names && listing[vanished.value].FileEntry?
      ensures failed ==>
              !Skipped(r, rel + [vanished.value]) && Own(w.fs, rel + [vanished.value]) != Some(listing[vanished.value])
    {
      infos, vanished, failed := map[], None, false;
      PassedNothing(w.Now());
      var i := 0;
      while i < |names|
        invariant 0 <= i <= |names|
        invariant Elapsed() && DirsHot()
        invariant forall n :: n in names[..i] && listing[n].FileEntry? && !Skipped(r, rel + [n]) ==>
                InfoGood(rel, n, infos)
      {
        var n := names[i];
        if listing[n].FileEntry? && !Skipped(r, rel + [n]) {
          ghost var m := w.Now();
          var e := Look(rel + [n]);
          PassedOn(old(w.Now()), m, w.Now());
          if e.None? || !e.value.FileEntry? {
            vanished, failed := Some(n), true;
            return;
          }
          forall k | k in infos && NodeAnswer(r, m.fs, m.recent, rel + [k], k, Ok(FileNode(k, infos[k].0, infos[k].1)))
            ensures InfoGood(rel, k, infos)
          {
            NodeAnswerAges(r, m, w.Now(), rel + [k], k, Ok(FileNode(k, infos[k].0, infos[k].1)));
          }
          infos := infos[n := (FileDigest(r.sha, e.value.content), e.value.executable)];
          LeafIsCold(r, w.fs, rel + [n], n);
        }
        i := i + 1;
      }
    }

    /**
     The recursive directory walk. Its answer and everything it caches are cold values,
     up to the paths that changed since the reader's snapshot. A trusted digest is returned without
     looking, unless the caller wants it verified.
     */
    method DigestDirectory(rel: Path, verify: bool) returns (res: Result<Digest, Error>)
      requires w.Valid() && !Excluded(r, rel) && DirsHot()
      modifies this`dirCache, this`dirtyDirs, store`pending, w, w.tracker
      ensures Elapsed() && DirsHot()
      ensures DirectoryAnswer(r, w.fs, w.recent, rel, res)
      ensures !verify && rel in old(Trusted()) ==> res == Ok(old(Trusted())[rel])
      ensures w.clock == old(w.clock) <==> !verify && rel in old(Trusted())
      ensures res.Ok? && (verify || rel !in old(Trusted())) ==> Covered(r, w.recent, rel) || IsDir(w.fs, rel)
      ensures res.Ok? ==> rel in Trusted() && Trusted()[rel] == res.value
      decreases if |rel| <= w.maxDepth then w.maxDepth - |rel| + 1 else 0, 3
    {
      if !verify && rel !in dirtyDirs && rel in dirCache {
        PassedNothing(w.Now());
        res := Ok(dirCache[rel]);
      } else {
        res := RecomputeDirectory(rel, verify);
      }
    }

    /** A directory read afresh, and cached. */
    method RecomputeDirectory(rel: Path, verify: bool) returns (res: Result<Digest, Error>)
      requires w.Valid() && !Excluded(r, rel) && DirsHot()
      modifies this`dirCache, this`dirtyDirs, store`pending, w, w.tracker
      ensures Elapsed() && DirsHot() && old(w.clock) < w.clock
      ensures DirectoryAnswer(r, w.fs, w.recent, rel, res)
      ensures res.Ok? ==> Covered(r, w.recent, rel) || IsDir(w.fs, rel)
      ensures res.Ok? ==> rel in Trusted() && Trusted()[rel] == res.value
      decreases if |rel| <= w.maxDepth then w.maxDepth - |rel| + 1 else 0, 2
    {
      var own := Look(rel);
      if own != Some(DirEntry) {
        res := Err(NotADirectory);
      } else {
        ghost var m := w.Now();
        var nodes := ListedNodes(rel, verify);
        PassedOn(old(w.Now()), m, w.Now());
        res := HashedLevel(nodes, DirectoryDomain);
        if res.Ok? {
          CacheDirectory(rel, res.value);
        }
      }
    }

    function HashedLevel(nodes: Result<seq<Node>, Error>, d: Domain): Result<Digest, Error> {
      match nodes
      case Err(e) => Err(e)
      case Ok(ns) =>
        match HashNodes(r.sha, d, ns)
        case None => Err(Overflow)
        case Some(x) => Ok(x)
    }

    /** List a directory and produce one node for everything it shows. */
    method ListedNodes(rel: Path, verify: bool) returns (res: Result<seq<Node>, Error>)
      requires w.Valid() && !Excluded(r, rel) && DirsHot()
      modifies this`dirCache, this`dirtyDirs, store`pending, w, w.tracker
      ensures Elapsed() && DirsHot()
      ensures res.Err? ==> DirectoryAnswer(r, w.fs, w.recent, rel, Err(res.error))
      ensures res.Ok? && !Covered(r, w.recent, rel) ==> IsDir(w.fs, rel)
      ensures res.Ok? && !CoveredBelow(r, w.recent, rel) ==>
                ColdBelow(r, w.fs, rel) == HashNodes(r.sha, DirectoryDomain, res.value)
      decreases if |rel| <= w.maxDepth then w.maxDepth - |rel| + 1 else 0, 1
    {
      var scan := w.Scan(rel);
      DirsAge(r, old(w.Now()), w.Now(), dirCache, dirtyDirs);
      if scan.None? {
        return Err(NotFound);
      }
      ghost var m := w.Now();
      var listing, names := scan.value, SortNames(scan.value.Keys);
      var infos, vanished, failed := FileInfos(rel, listing, names);
      PassedOn(old(w.Now()), m, w.Now());
      if failed {
        ChildLookup(m.fs, rel, vanished.value);
        ChangedChildCovers(r, m, w.Now(), rel, vanished.value);
        return Err(NotFound);
      }
      ghost var shown, k := [], w.Now();
      res, shown := NodesOfListing(rel, listing, names, infos, verify, m);
      PassedOn(old(w.Now()), k, w.Now());
      if res.Ok? {
        EntryPersists(r, m, w.Now(), rel);
        DirectoryAssembled(r, m, w.Now(), rel, shown, res.value);
      }
    }

    lemma DepthOf(fs: Tree, rel: Path, n: Name)
      requires Shallow(fs, w.maxDepth) && IsDir(fs, rel) && n in Lookup(fs, rel).value.children
      ensures |rel + [n]| <= w.maxDepth
    {
      ChildLookup(fs, rel, n);
      PathsAreExactlyTheEntries(fs, rel + [n]);
    }

    /** One node per shown entry of a listing taken at moment `m`, in name order. */
    method NodesOfListing(rel: Path, listing: map<Name, Entry>, names: seq<Name>, infos: map<Name, (Digest, bool)>,
                          verify: bool, ghost m: Moment)
      returns (res: Result<seq<Node>, Error>, ghost shown: seq<Name>)
      requires w.Valid() && !Excluded(r, rel) && DirsHot()
      requires Tracked(m) && Passed(m, w.Now()) && m.maxDepth == w.maxDepth && IsDir(m.fs, rel)
      requires listing == Listing(Lookup(m.fs, rel).value) && names == SortNames(listing.Keys)
      requires forall n :: n in names && listing[n].FileEntry? && !Skipped(r, rel + [n]) ==> InfoGood(rel, n, infos)
      modifies this`dirCache, this`dirtyDirs, store`pending, w, w.tracker
      ensures Elapsed() && DirsHot() && Passed(m, w.Now())
      ensures res.Ok? ==>
              ShowsUpTo(r, rel, listing, names, shown) && NodesMatch(r, w.fs, w.recent, rel, shown, res.value)
      ensures res.Err? ==> DirectoryAnswer(r, w.fs, w.recent, rel, Err(res.error))
      decreases if |rel| <= w.maxDepth then w.maxDepth - |rel| + 1 else 0, 0, 1
    {
      var nodes: seq<Node> := [];
      shown := [];
      PassedNothing(w.Now());
      var i := 0;
      while i < |names|
        invariant 0 <= i <= |names|
        invariant Elapsed() && DirsHot()
        invariant ShowsUpTo(r, rel, listing, names[..i], shown)
        invariant NodesMatch(r, w.fs, w.recent, rel, shown, nodes)
      {
        var n := names[i];
        assert n in names;
        ShownExtends(r, rel, listing, names, i, shown);
        if !Skipped(r, rel + [n]) && listing[n] != SpecialEntry {
          ghost var k := w.Now();
          PassedOn(m, old(w.Now()), k);
          var node := ChildNode(rel, n, listing[n], infos, verify, m, old(w.Now()));
          PassedOn(old(w.Now()), k, w.Now());
          PassedOn(m, k, w.Now());
          if node.Err? {
            ChildFailureIsFatal(r, m, w.Now(), rel, n, node.error);
            return Err(node.error), shown;
          }
          NodesMatchAges(r, k, w.Now(), rel, shown, nodes);
          NodesMatchAppend(r, w.fs, w.recent, rel, shown, nodes, n, node.value);
          nodes, shown := nodes + [node.value], shown + [n];
        }
        i := i + 1;
      }
      PassedOn(m, old(w.Now()), w.Now());
      assert names[..|names|] == names;
      return Ok(nodes), shown;
    }

    /** The node of one listed entry; links and directories are read at their own moment. */
    method ChildNode(rel: Path, n: Name, listed: Entry, infos: map<Name, (Digest, bool)>, verify: bool, ghost m: Moment,
        ghost k: Moment)
      returns (res: Result<Node, Error>)
      requires w.Valid() && DirsHot() && !Skipped(r, rel + [n])
      requires Tracked(m) && Passed(m, w.Now()) && m.maxDepth == w.maxDepth && IsDir(m.fs, rel)
      requires n in Lookup(m.fs, rel).value.children && listed == EntryOf(Lookup(m.fs, rel).value.children[n])
      requires Tracked(k) && Passed(k, w.Now())
      requires listed.FileEntry? ==>
              n in infos && NodeAnswer(r, k.fs, k.recent, rel + [n], n, Ok(FileNode(n, infos[n].0, infos[n].1)))
      requires !listed.SpecialEntry?
      modifies this`dirCache, this`dirtyDirs, store`pending, w, w.tracker
      ensures Elapsed() && DirsHot()
      ensures NodeAnswer(r, w.fs, w.recent, rel + [n], n, res)
      decreases if |rel| <= w.maxDepth then w.maxDepth - |rel| + 1 else 0, 0, 0
    {
      var child := rel + [n];
      ChildLookup(m.fs, rel, n);
      PassedNothing(w.Now());
      match listed
      case FileEntry(_, _) =>
        res := Ok(FileNode(n, infos[n].0, infos[n].1));
        NodeAnswerAges(r, k, w.Now(), child, n, res);
      case LinkEntry(_) =>
        var e := Look(child);
        PassedOn(m, old(w.Now()), w.Now());
        if e.None? || !e.value.LinkEntry? {
          ChangedChildCovers(r, m, w.Now(), rel, n);
          res := Err(NotFound);
        } else {
          LeafIsCold(r, w.fs, child, n);
          res := Ok(LinkNode(n, e.value.target));
        }
      case DirEntry =>
        DepthOf(m.fs, rel, n);
        var sub := DigestDirectory(child, verify);
        PassedOn(m, old(w.Now()), w.Now());
        res := AsNode(sub, n);
        DirectoryIsNode(r, m, w.Now(), child, n, sub);
    }

    function AsNode(sub: Result<Digest, Error>, n: Name): Result<Node, Error> {
      match sub
      case Err(e) => Err(e)
      case Ok(x) => Ok(DirNode(n, x))
    }

    // -------------------------------------------------------------- reading one path

    /** Every leaf and directory cache is trustworthy up to what changed since the snapshot. */
    ghost predicate Hot()
      reads this, w, store
    {
      DirsHot() && PathsSound(r, w.fs, w.recent, pathCache)
    }

    method LookHot(rel: Path) returns (e: Option<Entry>)
      requires w.Valid() && Hot()
      modifies w, w.tracker
      ensures Elapsed() && Hot() && e == Own(w.fs, rel) && w.clock == old(w.clock) + 1
    {
      e := Look(rel);
      PathsAge(r, old(w.Now()), w.Now(), pathCache);
    }

    function Renamed(node: Node, name: Name): Node {
      node.(name := name)
    }

    /**
     The node of a selected path under a given name: from the leaf cache, without looking, unless the
     caller wants it verified; else from the filesystem, and a leaf is remembered.
     */
    method NodeForPath(rel: Path, name: Name, verify: bool) returns (res: Result<Node, Error>)
      requires w.Valid() && Hot()
      modifies this`dirCache, this`dirtyDirs, this`pathCache, store`pending, w, w.tracker
      ensures Elapsed() && Hot()
      ensures NodeAnswer(r, w.fs, w.recent, rel, name, res)
      ensures res.Ok? ==> (w.clock == old(w.clock) <==> !verify && rel in old(pathCache))
      ensures res.Ok? && !res.value.DirNode? ==> rel in pathCache
      ensures w.clock == old(w.clock) ==> pathCache == old(pathCache)
    {
      PassedNothing(w.Now());
      if Excluded(r, rel) {
        res := Err(ExcludedPath);
      } else if !verify && rel in pathCache {
        if rel !in w.recent { LeafIsCold(r, w.fs, rel, name); }
        res := Ok(Renamed(pathCache[rel], name));
      } else {
        res := ReadPathNode(rel, name, verify);
        if res.Ok? && !res.value.DirNode? {
          pathCache := pathCache[rel := Renamed(res.value, [])];
        }
      }
    }

    /** Classify the path as link, file or directory, one observation at a time, and read it. */
    method ReadPathNode(rel: Path, name: Name, verify: bool) returns (res: Result<Node, Error>)
      requires w.Valid() && Hot() && !Excluded(r, rel)
      modifies this`dirCache, this`dirtyDirs, store`pending, w, w.tracker
      ensures Elapsed() && Hot() && old(w.clock) < w.clock
      ensures NodeAnswer(r, w.fs, w.recent, rel, name, res)
      ensures res.Ok? && !res.value.DirNode? ==> LeafAt(r, w.fs, rel) == Some(Renamed(res.value, []))
    {
      ghost var m0 := w.Now();
      var leaf := ReadLeaf(rel);
      if leaf.Some? {
        match leaf.value
        case Err(e) => res := Err(e);
        case Ok(node) =>
          LeafIsCold(r, w.fs, rel, name);
          res := Ok(Renamed(node, name));
      } else {
        ghost var m := w.Now();
        var e := LookHot(rel);
        PassedOn(m0, m, w.Now());
        if e != Some(DirEntry) {
          NeitherLeafNorDirectory(r, m, w.Now(), rel, name);
          res := Err(NotFound);
        } else {
          ghost var k := w.Now();
          var sub := DigestDirectory(rel, verify);
          PassedOn(m0, k, w.Now());
          PathsAge(r, k, w.Now(), pathCache);
          DirectoryIsNode(r, k, w.Now(), rel, name, sub);
          res := AsNode(sub, name);
        }
      }
    }

    /** A link or file at the path, read once classified; `None` when the path is neither. */
    method ReadLeaf(rel: Path) returns (leaf: Option<Result<Node, Error>>)
      requires w.Valid() && Hot() && !Excluded(r, rel)
      modifies w, w.tracker
      ensures Elapsed() && Hot() && old(w.clock) < w.clock
      ensures leaf.None? ==> Covered(r, w.recent, rel) || LeafAt(r, w.fs, rel).None?
      ensures leaf.Some? && leaf.value.Ok? ==> LeafAt(r, w.fs, rel) == Some(leaf.value.value)
      ensures leaf.Some? && leaf.value.Err? ==> Covered(r, w.recent, rel)
    {
      ghost var m0 := w.Now();
      var e := LookHot(rel);
      ghost var m := w.Now();
      var again := LookHot(rel);
      PassedOn(m0, m, w.Now());
      EntryPersists(r, m, w.Now(), rel);
      if e.Some? && e.value.LinkEntry? {
        leaf := Some(if again.Some? && again.value.LinkEntry? then Ok(LinkNode([], again.value.target)) else
            Err(NotFound));
      } else if again.Some? && again.value.FileEntry? {
        ghost var k := w.Now();
        var content := LookHot(rel);
        PassedOn(m0, k, w.Now());
        EntryPersists(r, k, w.Now(), rel);
        leaf := Some(if content.Some? && content.value.FileEntry?
                     then Ok(FileNode([], FileDigest(r.sha, content.value.content), content.value.executable))
                     else Err(NotFound));
      } else {
        leaf := None;
      }
    }

    // -------------------------------------------------------------- reading one manifest

    /** What was seen at some paths when they were classified. */
    ghost predicate StillSuch(files: set<Path>, dirs: set<Path>)
      reads w
    {
      && (forall rel :: rel in files ==> !Excluded(r, rel) && (Covered(r, w.recent, rel) || IsFile(w.fs, rel)))
      && (forall rel :: rel in dirs ==> !Excluded(r, rel) && (Covered(r, w.recent, rel) || IsDir(w.fs, rel)))
    }

    /** A path without a cold node, unless it changed since the snapshot. */
    ghost predicate Fails(rel: Path)
      reads w
    {
      Covered(r, w.recent, rel) || Missing(r, w.fs, rel)
    }

    /** A path whose leaf is cached, or a directory, unless it changed since the snapshot. */
    ghost predicate Primed(rel: Path)
      reads this, w
    {
      rel in pathCache || Covered(r, w.recent, rel) || IsDir(w.fs, rel)
    }

    /** Reading on keeps everything gathered so far good. */
    ghost predicate Gathered(files: set<Path>, dirs: set<Path>, found: map<Path, Node>)
      reads this, w, store
    {
      Hot() && StillSuch(files, dirs) && PathsSound(r, w.fs, w.recent, found)
    }

    method LookGathering(rel: Path, ghost files: set<Path>, ghost dirs: set<Path>, ghost found: map<Path, Node>)
      returns (e: Option<Entry>)
      requires w.Valid() && Gathered(files, dirs, found)
      modifies w, w.tracker
      ensures Elapsed() && Gathered(files, dirs, found) && e == Own(w.fs, rel) && w.clock == old(w.clock) + 1
    {
      ghost var m := w.Now();
      e := LookHot(rel);
      PathsAge(r, m, w.Now(), found);
      Reports(m, w.Now());
      forall q | q in files + dirs ensures Covered(r, w.recent, q) || Own(m.fs, q) == Own(w.fs, q) {
        EntryPersists(r, m, w.Now(), q);
      }
    }

    /** Link, file or directory, one observation at a time. */
    method Classify(rel: Path, ghost files: set<Path>, ghost dirs: set<Path>, ghost found: map<Path, Node>)
      returns (c: Result<Terminal, Error>)
      requires w.Valid() && Gathered(files, dirs, found) && !Excluded(r, rel)
      modifies w, w.tracker
      ensures Elapsed() && Gathered(files, dirs, found) && old(w.clock) < w.clock
      ensures c.Ok? && c.value.LinkTerminal? ==> LeafAt(r, w.fs, rel) == Some(LinkNode([], c.value.target))
      ensures c.Ok? && c.value.FileTerminal? ==> IsFile(w.fs, rel)
      ensures c.Ok? && c.value.DirectoryTerminal? ==> IsDir(w.fs, rel)
      ensures c.Err? ==> Fails(rel)
    {
      var e := LookGathering(rel, files, dirs, found);
      ghost var m := w.Now();
      var again := LookGathering(rel, files, dirs, found);
      PassedOn(old(w.Now()), m, w.Now());
      EntryPersists(r, m, w.Now(), rel);
      if e.Some? && e.value.LinkEntry? {
        c := if again.Some? && again.value.LinkEntry? then Ok(LinkTerminal(again.value.target)) else Err(NotFound);
      } else if again.Some? && again.value.FileEntry? {
        c := Ok(FileTerminal);
      } else {
        ghost var k := w.Now();
        var last := LookGathering(rel, files, dirs, found);
        PassedOn(old(w.Now()), k, w.Now());
        if last == Some(DirEntry) {
          c := Ok(DirectoryTerminal);
        } else {
          NeitherLeafNorDirectory(r, k, w.Now(), rel, []);
          c := Err(NotFound);
        }
      }
    }

    /**
     Observe the given terminals in a batch and remember every file and link among them; on an
     error, `failed` is the terminal it is about. Those already remembered are not looked at again,
     unless the caller wants them verified.
     */
    method PrimeTerminals(rels: set<Path>, verify: bool) returns (error: Option<Error>, ghost failed: Path)
      requires w.Valid() && Hot()
      modifies this`pathCache, w, w.tracker
      ensures Elapsed() && Hot()
      ensures error.Some? ==> failed in rels && Fails(failed)
      ensures error.None? ==> forall rel :: rel in rels ==> Primed(rel)
      ensures error.None? ==> old(w.clock) + |ToObserve(rels, verify, old(pathCache))| <= w.clock
      ensures ToObserve(rels, verify, old(pathCache)) == {} ==> w.clock == old(w.clock)
    {
      failed := [];
      PassedNothing(w.Now());
      var todo, files, found := rels, {}, map[];
      ghost var dirs, unseen := {}, ToObserve(rels, verify, pathCache);
      while todo != {}
        invariant Elapsed() && Gathered(files, dirs, found) && todo <= rels && files <= unseen
        invariant forall rel :: rel in rels && rel !in todo ==>
                rel in pathCache || rel in files || rel in found || rel in dirs
        invariant forall rel :: rel in todo ==> (rel in pathCache <==> rel in old(pathCache))
        invariant old(w.clock) + |unseen - todo| <= w.clock && (unseen == {} ==> w.clock == old(w.clock))
        decreases todo
      {
        var rel :| rel in todo;
        OneLess(unseen, todo, rel);
        todo := todo - {rel};
        ghost var m := w.Now();
        error, files, dirs, found := PrimeNext(rel, verify, files, dirs, found);
        PassedOn(old(w.Now()), m, w.Now());
        if error.Some? {
          return error, rel;
        }
      }
      error, failed := ReadFiles(rels, files, dirs, found, old(w.Now()));
    }

    /** Classify one terminal, unless it is remembered and may be used so. */
    method PrimeNext(rel: Path, verify: bool, files: set<Path>, ghost dirs: set<Path>, found: map<Path, Node>)
      returns (error: Option<Error>, files': set<Path>, ghost dirs': set<Path>, found': map<Path, Node>)
      requires w.Valid() && Gathered(files, dirs, found)
      modifies this`pathCache, w, w.tracker
      ensures Elapsed() && Gathered(files', dirs', found')
      ensures error.Some? ==> Fails(rel)
      ensures files <= files' <= files + {rel} && dirs <= dirs' && found.Keys <= found'.Keys
      ensures error.None? ==> rel in pathCache || rel in files' || rel in found' || rel in dirs'
      ensures pathCache == if verify && !Excluded(r, rel) then old(pathCache) - {rel} else old(pathCache)
      ensures if verify || rel !in old(pathCache) then error.None? ==> old(w.clock) < w.clock
              else w.clock == old(w.clock) && files' == files
    {
      error, files', dirs', found' := None, files, dirs, found;
      PassedNothing(w.Now());
      if Excluded(r, rel) {
        error := Some(ExcludedPath);
        return;
      }
      if verify {
        pathCache := pathCache - {rel};
      }
      if rel !in pathCache {
        var c := Classify(rel, files, dirs, found);
        match c
        case Err(e) => error := Some(e);
        case Ok(LinkTerminal(target)) => found' := found[rel := LinkNode([], target)];
        case Ok(FileTerminal) => files' := files + {rel};
        case Ok(DirectoryTerminal) => dirs' := dirs + {rel};
      }
    }

    /** The terminals a batch has to look at. */
    function ToObserve(rels: set<Path>, verify: bool, known: map<Path, Node>): set<Path> {
      if verify then rels else rels - known.Keys
    }

    lemma OneLess(s: set<Path>, todo: set<Path>, p: Path)
      requires p in todo
      ensures |s - (todo - {p})| == |s - todo| + if p in s then 1 else 0
    {
      assert s - (todo - {p}) == if p in s then (s - todo) + {p} else s - todo;
    }

    method ReadFiles(ghost rels: set<Path>, files: set<Path>, ghost dirs: set<Path>, links: map<Path, Node>,
        ghost m0: Moment)
      returns (error: Option<Error>, ghost failed: Path)
      requires w.Valid() && Gathered(files, dirs, links) && files <= rels && Passed(m0, w.Now())
      requires forall rel :: rel in rels ==> rel in pathCache || rel in files || rel in links || rel in dirs
      modifies this`pathCache, w, w.tracker
      ensures Passed(m0, w.Now()) && w.Valid() && Hot()
      ensures old(w.clock) <= w.clock && (files == {} ==> w.clock == old(w.clock))
      ensures error.Some? ==> failed in rels && Fails(failed)
      ensures error.None? ==> forall rel :: rel in rels ==> Primed(rel)
    {
      failed := [];
      var todo, found := files, links;
      while todo != {}
        invariant w.Valid() && Passed(m0, w.Now()) && Gathered(files, dirs, found) && todo <= files
        invariant old(w.clock) <= w.clock && (files == {} ==> w.clock == old(w.clock))
        invariant links.Keys <= found.Keys && files - todo <= found.Keys && pathCache == old(pathCache)
        decreases todo
      {
        var rel :| rel in todo;
        todo := todo - {rel};
        ghost var m := w.Now();
        var e := LookGathering(rel, files, dirs, found);
        PassedOn(m0, m, w.Now());
        if e.None? || !e.value.FileEntry? {
          return Some(NotFound), rel;
        }
        found := found[rel := FileNode([], FileDigest(r.sha, e.value.content), e.value.executable)];
      }
      Remember(found);
      error := None;
    }

    method Remember(found: map<Path, Node>)
      requires Hot() && PathsSound(r, w.fs, w.recent, found)
      modifies this`pathCache
      ensures Hot() && pathCache == old(pathCache) + found
    {
      pathCache := pathCache + found;
    }

    // -------------------------------------------------------------- walking one trie

    /** The trie as a reader may find it: in place, trusted up to what is recent. */
    ghost predicate TrieHot(t: Trie, pos: Path)
      reads this, w, store
    {
      Hot() && Placed(t, pos) && TrieSound(r, w.fs, w.recent, t)
    }

    /** Reading a node only refreshes it: same place, same selection, never dirtier. */
    ghost predicate Refreshed(t: Trie, u: Trie) {
      ShapeOf(u) == ShapeOf(t) && u.segment == t.segment && (u.dirty ==> t.dirty)
    }

    /** A walk with `verify` has looked at the filesystem, unless just everything selected was primed. */
    twostate predicate Looked(verify: bool, s: Shape)
      reads this, w
    {
      verify && w.clock == old(w.clock) ==> pathCache == old(pathCache) && Terminals(s) <= pathCache.Keys
    }

    /** A node whose own cache may be used. */
    predicate Warm(t: Trie) {
      !t.dirty && if t.terminal.Some? then t.cachedNode.Some? else t.cachedDigest.Some?
    }

    /** The node of one trie position, refreshing its caches on the way. */
    method WalkTrie(t: Trie, ghost pos: Path, verify: bool) returns (u: Trie, res: Result<Node, Error>)
      requires w.Valid() && TrieHot(t, pos)
      modifies this`dirCache, this`dirtyDirs, this`pathCache, store`pending, w, w.tracker
      ensures Elapsed() && TrieHot(u, pos) && Refreshed(t, u) && (res.Ok? ==> !u.dirty)
      ensures ShapeAnswer(r, w.fs, w.recent, ShapeOf(t), t.segment, res)
      ensures !verify && Warm(t) ==> w.clock == old(w.clock) && u == t
      ensures res.Ok? ==> Looked(verify, ShapeOf(t)) && Warm(u)
      decreases ShapeOf(t), 3
    {
      u := t;
      PassedNothing(w.Now());
      if t.terminal.Some? {
        u, res := WalkTerminal(t, pos, verify);
      } else if !verify && !t.dirty && t.cachedDigest.Some? {
        res := Ok(DirNode(t.segment, t.cachedDigest.value));
      } else {
        var nodes;
        u, nodes := WalkChildren(t, pos, verify);
        var digest := HashedLevel(nodes, ManifestDirectoryDomain);
        res := AsNode(digest, t.segment);
        InnerLevel(r, w.fs, w.recent, u, nodes);
        if digest.Ok? {
          u := u.(cachedDigest := Some(digest.value), dirty := false);
        }
      }
    }

    /** A selected path: its cached node, the node just primed, or a fresh read. */
    method WalkTerminal(t: Trie, ghost pos: Path, verify: bool) returns (u: Trie, res: Result<Node, Error>)
      requires w.Valid() && TrieHot(t, pos) && t.terminal.Some?
      modifies this`dirCache, this`dirtyDirs, this`pathCache, store`pending, w, w.tracker
      ensures Elapsed() && TrieHot(u, pos) && Refreshed(t, u) && (res.Ok? ==> !u.dirty)
      ensures ShapeAnswer(r, w.fs, w.recent, ShapeOf(t), t.segment, res)
      ensures res.Ok? ==> Warm(u)
      ensures res.Ok? ==> (w.clock == old(w.clock) <==> (!verify && Warm(t)) || t.terminal.value in old(pathCache))
      ensures w.clock == old(w.clock) ==> pathCache == old(pathCache)
      ensures !verify && Warm(t) ==> w.clock == old(w.clock) && u == t
    {
      u := t;
      PassedNothing(w.Now());
      LeafShape(r, w.fs, w.recent, pos, t.segment);
      if !verify && !t.dirty && t.cachedNode.Some? {
        res := Ok(t.cachedNode.value);
      } else {
        if verify && t.terminal.value in pathCache {
          if pos !in w.recent { LeafIsCold(r, w.fs, pos, t.segment); }
          res := Ok(Renamed(pathCache[t.terminal.value], t.segment));
        } else {
          res := NodeForPath(t.terminal.value, t.segment, verify);
          TrieAges(r, old(w.Now()), w.Now(), t);
          LeafShape(r, w.fs, w.recent, pos, t.segment);
        }
        if res.Ok? {
          u := t.(cachedNode := Some(res.value), dirty := false);
        }
      }
    }

    /** Every child of an inner node, in name order; stops at the first that fails. */
    method WalkChildren(t: Trie, ghost pos: Path, verify: bool) returns (u: Trie, res: Result<seq<Node>, Error>)
      requires w.Valid() && TrieHot(t, pos) && t.terminal.None?
      modifies this`dirCache, this`dirtyDirs, this`pathCache, store`pending, w, w.tracker
      ensures Elapsed() && TrieHot(u, pos) && ShapeOf(u) == ShapeOf(t)
      ensures u == t.(children := u.children)
      ensures res.Ok? ==> forall n | n in u.children :: !u.children[n].dirty
      ensures LevelAnswer(r, w.fs, w.recent, ShapeOf(t), if res.Ok? then Some(res.value) else None)
      ensures res.Ok? ==> Looked(verify, ShapeOf(t))
      decreases ShapeOf(t), 2
    {
      var names := SortNames(t.children.Keys);
      assert ShapeOf(t).children.Keys == t.children.Keys;
      u, res := WalkFrom(t, pos, names, verify);
      if res.Ok? {
        LevelAssembled(r, w.fs, w.recent, ShapeOf(t), res.value);
      }
    }

    twostate predicate LookedAt(verify: bool, s: Shape, names: seq<Name>)
      requires s.Branch?
      reads this, w
    {
      verify && w.clock == old(w.clock) ==>
        pathCache == old(pathCache) && forall n :: n in names && n in s.children ==>
          Terminals(s.children[n]) <= pathCache.Keys
    }

    /** The children named, one after the other. */
    method WalkFrom(t: Trie, ghost pos: Path, names: seq<Name>, verify: bool)
      returns (u: Trie, res: Result<seq<Node>, Error>)
      requires w.Valid() && TrieHot(t, pos) && t.terminal.None?
      requires StrictlySorted(names) && forall n :: n in names ==> n in t.children
      modifies this`dirCache, this`dirtyDirs, this`pathCache, store`pending, w, w.tracker
      ensures Elapsed() && TrieHot(u, pos) && ShapeOf(u) == ShapeOf(t)
      ensures u == t.(children := u.children) && u.children.Keys == t.children.Keys
      ensures forall k | k in t.children && k !in names :: u.children[k] == t.children[k]
      ensures res.Ok? ==> |res.value| == |names| && forall n :: n in names ==> n in u.children && !u.children[n].dirty
      ensures res.Ok? ==> NamesIn(ShapeOf(t), names) && ShapesMatch(r, w.fs, w.recent, ShapeOf(t), names, res.value)
      ensures res.Err? ==> LevelAnswer(r, w.fs, w.recent, ShapeOf(t), None)
      ensures res.Ok? ==> LookedAt(verify, ShapeOf(t), names)
      decreases ShapeOf(t), 1, |names|
    {
      u := t;
      PassedNothing(w.Now());
      assert ShapeOf(t).children.Keys == t.children.Keys;
      if names == [] {
        res := Ok([]);
      } else {
        var n, node := names[0], Err(NotFound);
        u, node := WalkChild(t, pos, n, verify);
        assert ShapeOf(t).children[n] == ShapeOf(t.children[n]);
        if node.Err? {
          LevelFails(r, w.fs, w.recent, ShapeOf(t), n);
          res := Err(node.error);
        } else {
          ghost var m := w.Now();
          var rest;
          DistinctNames(names, 0);
          u, rest := WalkFrom(u, pos, names[1..], verify);
          PassedOn(old(w.Now()), m, w.Now());
          if rest.Err? {
            res := Err(rest.error);
          } else {
            ShapeAnswerAges(r, m, w.Now(), ShapeOf(t).children[n], n, node);
            ShapesMatchCons(r, w.fs, w.recent, ShapeOf(t), names, node.value, rest.value);
            res := Ok([node.value] + rest.value);
          }
        }
      }
    }

    /** Walk one child and store it back. */
    method WalkChild(t: Trie, ghost pos: Path, n: Name, verify: bool) returns (u: Trie, res: Result<Node, Error>)
      requires w.Valid() && TrieHot(t, pos) && t.terminal.None? && n in t.children
      modifies this`dirCache, this`dirtyDirs, this`pathCache, store`pending, w, w.tracker
      ensures Elapsed() && TrieHot(u, pos) && ShapeOf(u) == ShapeOf(t)
      ensures n in u.children && u == t.(children := t.children[n := u.children[n]])
      ensures res.Ok? ==> !u.children[n].dirty
      ensures ShapeAnswer(r, w.fs, w.recent, ShapeOf(t.children[n]), n, res)
      ensures res.Ok? ==> Looked(verify, ShapeOf(t.children[n]))
      decreases ShapeOf(t), 0
    {
      var c;
      ChildShapeSmaller(t, n);
      c, res := WalkTrie(t.children[n], pos + [n], verify);
      ChildRead(r, old(w.Now()), w.Now(), t, pos, n, c);
      u := t.(children := t.children[n := c]);
    }

    // -------------------------------------------------------------- one manifest digest

    method DigestTree(tree: ManifestTree, verify: bool) returns (res: Result<Digest, Error>)
      requires w.Valid() && Hot() && tree.Valid() && tree.Sound(r, w.fs, w.recent)
      modifies tree, this`dirCache, this`dirtyDirs, this`pathCache, store`pending, w, w.tracker
      ensures Elapsed() && Hot() && tree.Valid() && tree.Sound(r, w.fs, w.recent)
      ensures RootAnswer(r, w.fs, w.recent, ManifestShape(tree.paths), if res.Ok? then Some(res.value) else None)
      ensures !verify && old(!tree.rootDirty && tree.rootDigest.Some?) ==> w.clock == old(w.clock)
      ensures res.Ok? ==> Looked(verify, ManifestShape(tree.paths))
      ensures res.Ok? ==> !tree.rootDirty && tree.rootDigest == Some(res.value)
    {
      PassedNothing(w.Now());
      if !verify && !tree.rootDirty && tree.rootDigest.Some? {
        res := Ok(tree.rootDigest.value);
      } else {
        var u, nodes := WalkChildren(tree.root, [], verify);
        Reports(old(w.Now()), w.Now());
        res := HashedLevel(nodes, InputRootDomain);
        RootLevel(r, w.fs, w.recent, ManifestShape(tree.paths), nodes);
        tree.Refresh(u, if res.Ok? then Some(res.value) else None, r, old(w.fs), old(w.recent), w.fs, w.recent);
      }
    }

    /** Every manifest tree may be trusted at `fs` up to `d`. */
    ghost predicate TreesSound(fs: Tree, d: set<Path>)
      reads this, trees.Values
    {
      forall k :: k in trees ==> trees[k].Valid() && trees[k].Sound(r, fs, d)
    }

    lemma TreesLater(fs: Tree, d: set<Path>, gs: Tree, e: set<Path>)
      requires TreesSound(fs, d) && Later(fs, d, gs, e)
      ensures TreesSound(gs, e)
    {
      forall k | k in trees ensures trees[k].Valid() && trees[k].Sound(r, gs, e) {
        TreeLater(r, fs, d, gs, e, trees[k]);
      }
    }

    lemma TreeLater(r: Rules, fs: Tree, d: set<Path>, gs: Tree, e: set<Path>, t: ManifestTree)
      requires t.Valid() && t.Sound(r, fs, d) && Later(fs, d, gs, e)
      ensures t.Sound(r, gs, e)
    {
      TrieLater(r, fs, d, gs, e, t.root);
      if !t.rootDirty {
        RootLater(r, fs, d, gs, e, ShapeOf(t.root), t.rootDigest);
      }
    }

    /** The manifest's tree, created on first use; a fingerprint that maps to other paths does not count. */
    method TreeFor(paths: seq<Path>) returns (tree: ManifestTree)
      requires AllSound(w.recent) && forall p :: p in paths ==> p != []
      modifies this`trees
      ensures AllSound(w.recent) && tree.paths == paths && tree in trees.Values && ManifestShape(paths).Branch?
      ensures fresh(trees.Values - old(trees.Values))
    {
      var key := Fingerprint(r.sha, paths);
      if key in trees && trees[key].paths == paths {
        tree := trees[key];
      } else {
        tree := new ManifestTree(paths);
        FreshTrieIsSound(r, w.fs, w.recent, tree.root);
        trees := trees[key := tree];
      }
      assert key in trees && trees[key] == tree;
    }

    /** How many observations a read takes at least: one for each selected path if it is to be verified. */
    function Anew(verify: bool, paths: seq<Path>): nat {
      if verify then |Terminals(ManifestShape(paths))| else 0
    }

    /** Prime the terminals the trie needs; every other cache merely ages. */
    method PrimeFor(tree: ManifestTree, verify: bool) returns (error: Option<Error>)
      requires w.Valid() && AllSound(w.recent) && tree in trees.Values && ManifestShape(tree.paths).Branch?
      modifies this`pathCache, w, w.tracker
      ensures Elapsed() && AllSound(w.recent)
      ensures error.Some? ==> RootAnswer(r, w.fs, w.recent, ManifestShape(tree.paths), None)
      ensures error.None? ==> old(w.clock) + Anew(verify, tree.paths) <= w.clock
    {
      var rels := TerminalsToRead(tree.root, !verify);
      ghost var m := w.Now();
      ghost var failed;
      AllToRead(tree.root);
      error, failed := PrimeTerminals(rels, verify);
      Reports(m, w.Now());
      TreesLater(m.fs, m.recent, w.fs, w.recent);
      if error.Some? {
        MissingFails(failed, ShapeOf(tree.root));
      }
    }

    /** Read one tree; every other tree merely ages. */
    method ReadTree(tree: ManifestTree, verify: bool) returns (res: Result<Digest, Error>)
      requires w.Valid() && AllSound(w.recent) && tree in trees.Values && ManifestShape(tree.paths).Branch?
      modifies this`dirCache, this`dirtyDirs, this`pathCache, tree, store`pending, w, w.tracker
      ensures Elapsed() && AllSound(w.recent)
      ensures RootAnswer(r, w.fs, w.recent, ManifestShape(tree.paths), if res.Ok? then Some(res.value) else None)
    {
      ghost var m := w.Now();
      res := DigestTree(tree, verify);
      Reports(m, w.Now());
      forall key | key in trees && trees[key] != tree
        ensures trees[key].Valid() && trees[key].Sound(r, w.fs, w.recent)
      {
        TreeLater(r, m.fs, m.recent, w.fs, w.recent, trees[key]);
      }
    }

    /** One manifest digest: find or make its tree, and read it. */
    method ComputeManifest(paths: seq<Path>, verify: bool) returns (res: Result<Digest, Error>)
      requires w.Valid() && AllSound(w.recent) && forall p :: p in paths ==> p != []
      modifies this`dirCache, this`dirtyDirs, this`pathCache, this`trees, trees.Values, store`pending, w, w.tracker
      ensures Elapsed() && AllSound(w.recent)
      ensures fresh(trees.Values - old(trees.Values))
      ensures ManifestShape(paths).Branch?
      ensures RootAnswer(r, w.fs, w.recent, ManifestShape(paths), if res.Ok? then Some(res.value) else None)
      ensures res.Ok? ==> old(w.clock) + Anew(verify, paths) <= w.clock
    {
      var tree := TreeFor(paths);
      res := PrimeAndRead(tree, verify);
    }

    /** Prime what the trie needs, then read it. */
    method PrimeAndRead(tree: ManifestTree, verify: bool) returns (res: Result<Digest, Error>)
      requires w.Valid() && AllSound(w.recent) && tree in trees.Values && ManifestShape(tree.paths).Branch?
      modifies this`dirCache, this`dirtyDirs, this`pathCache, tree, store`pending, w, w.tracker
      ensures Elapsed() && AllSound(w.recent)
      ensures RootAnswer(r, w.fs, w.recent, ManifestShape(tree.paths), if res.Ok? then Some(res.value) else None)
      ensures res.Ok? ==> old(w.clock) + Anew(verify, tree.paths) <= w.clock
    {
      var error := PrimeFor(tree, verify);
      if error.Some? {
        res := Err(error.value);
      } else {
        ghost var m := w.Now();
        res := ReadTree(tree, verify);
        PassedOn(old(w.Now()), m, w.Now());
      }
    }

    lemma MissingFails(rel: Path, s: Shape)
      requires rel in Terminals(s) && Fails(rel) && s.Branch?
      ensures RootAnswer(r, w.fs, w.recent, s, None)
    {
      if Missing(r, w.fs, rel) {
        MissingTerminalFails(r, w.fs, s, rel);
      }
    }

    // -------------------------------------------------------------- replaying changes

    /** An empty cache is sound whatever has changed. */
    method DropHotCache()
      modifies this`dirCache, this`dirtyDirs, this`pathCache, this`trees
      ensures forall d :: AllSound(d)
      ensures Trusted() == map[] && pathCache == map[] && trees == map[]
    {
      dirCache, dirtyDirs, pathCache, trees := map[], {[]}, map[], map[];
    }

    /** Replay dirty paths against every manifest tree; a large burst drops the trees instead. */
    method InvalidateManifestCache(dirty: seq<Path>, ghost d: set<Path>)
      requires TreesSound(w.fs, d + Elements(dirty))
      modifies this`trees, trees.Values
      ensures TreesSound(w.fs, d)
      ensures trees == if |dirty| > 512 then map[] else old(trees)
    {
      if |dirty| > 512 {
        trees := map[];
        return;
      }
      assert dirty[0..] == dirty;
      for i := 0 to |dirty|
        invariant trees == old(trees) && TreesSound(w.fs, d + Elements(dirty[i..]))
      {
        ElementsHead(dirty, i);
        assert d + Elements(dirty[i..]) == (d + Elements(dirty[i + 1..])) + {dirty[i]};
        ReplayOnTrees(dirty[i], d + Elements(dirty[i + 1..]));
      }
      assert d + Elements(dirty[|dirty|..]) == d;
    }

    method ReplayOnTrees(p: Path, ghost d: set<Path>)
      requires TreesSound(w.fs, d + {p})
      modifies trees.Values
      ensures TreesSound(w.fs, d)
    {
      var todo := trees.Values;
      while todo != {}
        invariant todo <= trees.Values
        invariant forall t :: t in trees.Values ==> t.Valid() && t.Sound(r, w.fs, if t in todo then d + {p} else d)
        decreases todo
      {
        var tree :| tree in todo;
        todo := todo - {tree};
        var hit := tree.Invalidate(p, r, w.fs, d);
      }
      assert forall k :: k in trees ==> trees[k] in trees.Values;
    }

    /** Mark the walk start and everything above it dirty, and forget their digests. */
    method DropUpward(start: Path)
      modifies this`dirCache, this`dirtyDirs
      ensures dirCache == old(dirCache) - Upward(start) && dirtyDirs == old(dirtyDirs) + Upward(start)
    {
      var current := start;
      UpwardStep(start);
      dirtyDirs, dirCache := dirtyDirs + {current}, dirCache - {current};
      ghost var done := {current};
      while current != []
        invariant done + (if current == [] then {} else Upward(current[..|current| - 1])) == Upward(start)
        invariant dirCache == old(dirCache) - done && dirtyDirs == old(dirtyDirs) + done
        decreases |current|
      {
        current := current[..|current| - 1];
        UpwardStep(current);
        dirtyDirs, dirCache := dirtyDirs + {current}, dirCache - {current};
        done := done + {current};
      }
    }

    /** Forget what one reported path can have changed; a text without a normal form raises. */
    method Invalidate(text: Bytes, ghost d: set<Path>) returns (ok: bool)
      requires w.Valid() && AllSound(d + NamedBy({text}) + w.recent)
      modifies this`dirCache, this`dirtyDirs, this`pathCache, this`trees, trees.Values, w, w.tracker
      ensures Elapsed() && AllSound(d + w.recent)
      ensures ok <==> Normalize(text).Some?
      ensures trees == old(trees) || trees == map[]
      ensures Trusted() == old(Trusted()) - Gone(r, w.fs, NamedBy({text}))
    {
      PassedNothing(w.Now());
      var rel := Normalize(text);
      ok := rel.Some?;
      if !ok {
        assert NamedBy({text}) == {};
        assert d + {} + w.recent == d + w.recent;
      } else {
        assert NamedBy({text}) == {rel.value};
        InvalidatePath(rel.value, d);
        GoneOne(r, w.fs, rel.value);
      }
    }

    /** One path, unless excluded: look what is there now, and drop what can depend on it. */
    method InvalidatePath(p: Path, ghost d: set<Path>)
      requires w.Valid() && AllSound(d + {p} + w.recent)
      modifies this`dirCache, this`dirtyDirs, this`pathCache, this`trees, trees.Values, w, w.tracker
      ensures Elapsed() && AllSound(d + w.recent)
      ensures trees == old(trees) || trees == map[]
      ensures Trusted() == old(Trusted()) - GoneBy(r, w.fs, p)
    {
      PassedNothing(w.Now());
      MovedLast(d, p, w.recent);
      if Excluded(r, p) {
        ExcludedReportIsMoot(r, w.fs, d + w.recent, dirCache, dirtyDirs, pathCache, p);
        ExcludedIsMootForTrees(p, d + w.recent);
      } else {
        ghost var m := w.Now();
        var own := w.Probe(p);
        AllSoundLater(m, d + {p});
        MovedLast(d, p, w.recent);
        DropFor(p, own == Some(DirEntry), d + w.recent);
      }
    }

    /** The caches that can depend on one path, each in its own way. */
    method DropFor(p: Path, isDir: bool, ghost d: set<Path>)
      requires AllSound(d + {p})
      modifies this`dirCache, this`dirtyDirs, this`pathCache, this`trees, trees.Values
      ensures AllSound(d)
      ensures trees == old(trees) || trees == map[]
      ensures Trusted() == old(Trusted()) - Upward(WalkStart(p, isDir))
    {
      ReplayRepairsPaths(r, w.fs, d, pathCache, p, isDir);
      ReplayRepairsDirs(r, w.fs, d, dirCache, dirtyDirs, p, isDir);
      pathCache := PathsDropped(pathCache, p, isDir);
      assert Elements([p]) == {p};
      InvalidateManifestCache([p], d);
      DropUpward(WalkStart(p, isDir));
    }

    lemma MovedLast(d: set<Path>, p: Path, e: set<Path>)
      ensures d + {p} + e == d + e + {p}
    {
    }

    lemma ExcludedIsMootForTrees(p: Path, d: set<Path>)
      requires Excluded(r, p) && TreesSound(w.fs, d + {p})
      ensures TreesSound(w.fs, d)
    {
      assert forall rel :: Covered(r, d + {p}, rel) ==> Covered(r, d, rel);
      forall k | k in trees ensures trees[k].Sound(r, w.fs, d) {
        TrieTransfer(r, w.fs, d + {p}, d, trees[k].root);
      }
    }

    /** After the environment moved on from `m`, with the caches untouched. */
    lemma AllSoundLater(m: Moment, d: set<Path>)
      requires Tracked(m) && Passed(m, w.Now())
      requires DirsSound(r, m.fs, d + m.recent, dirCache, dirtyDirs) && PathsSound(r, m.fs, d + m.recent, pathCache)
      requires TreesSound(m.fs, d + m.recent) && Mirrored()
      ensures AllSound(d + w.recent)
    {
      Reports(m, w.Now());
      DirsLater(r, m.fs, d + m.recent, w.fs, d + w.recent, dirCache, dirtyDirs);
      PathsLater(r, m.fs, d + m.recent, w.fs, d + w.recent, pathCache);
      TreesLater(m.fs, d + m.recent, w.fs, d + w.recent);
    }

    // -------------------------------------------------------------- reconciliation

    /**
     Take a snapshot and bring the hot caches up to it: nothing to do when CLEAN, replay when
     DIRTY, forget everything when UNKNOWN.
     */
    method PrepareObservation() returns (generation: nat)
      requires Ready()
      modifies this`dirCache, this`dirtyDirs, this`pathCache, this`trees, trees.Values, w, w.tracker
      ensures w.Valid() && AllSound(w.recent) && generation == w.base == old(w.tracker.generation)
      ensures Passed(Rebased(old(w.Now())), w.Now())
      ensures Stood(Rebased(old(w.Now())), w.Now()) ==> Trusted() == old(Remembered())
      ensures old(w.tracker.state) == Unknown ==> Trusted() == map[] && pathCache == map[] && trees == map[]
      ensures trees == old(trees) || trees == map[]
    {
      w.JournalIsPlain();
      var snapshot := w.tracker.TakeSnapshot();
      w.Rebase();
      generation := snapshot.generation;
      ghost var start := w.Now();
      CatchUp(snapshot);
      SameBase(start, w.Now());
    }

    /** What is left of trusted digests once a journal has been replayed at `fs`. */
    static ghost function Left(r: Rules, fs: Tree, trusted: map<Path, Digest>, state: State,
        paths: set<Path>): map<Path, Digest> {
      if state == Unknown then map[] else trusted - Gone(r, fs, paths)
    }

    /** Nothing to do when CLEAN, replay when DIRTY, forget everything when UNKNOWN. */
    method CatchUp(snapshot: Snapshot)
      requires w.Valid() && TreesValid() && w.recent == {} && forall p :: p in snapshot.paths ==> Portable(p)
      requires snapshot.state != Unknown ==> AllSound(Elements(snapshot.paths))
      requires snapshot.state == Clean ==> Elements(snapshot.paths) == {}
      modifies this`dirCache, this`dirtyDirs, this`pathCache, this`trees, trees.Values, w, w.tracker
      ensures Elapsed() && AllSound(w.recent)
      ensures Stood(old(w.Now()), w.Now()) ==>
                Trusted() == Left(r, w.fs, old(Trusted()), snapshot.state, Elements(snapshot.paths))
      ensures snapshot.state == Unknown ==> Trusted() == map[] && pathCache == map[] && trees == map[]
      ensures trees == old(trees) || trees == map[]
    {
      PassedNothing(w.Now());
      if snapshot.state == Unknown {
        DropHotCache();
      } else if snapshot.state == Dirty {
        assert Elements(snapshot.paths) + w.recent == Elements(snapshot.paths);
        var ok := InvalidateMany(snapshot.paths);
      } else {
        NothingGone(r, w.fs);
        assert Trusted() - {} == Trusted();
      }
    }

    /** Replay every reported path, then once more against the manifest trees. */
    method InvalidateMany(reported: seq<Path>) returns (ok: bool)
      requires w.Valid() && AllSound(Elements(reported) + w.recent) && forall p :: p in reported ==> Portable(p)
      modifies this`dirCache, this`dirtyDirs, this`pathCache, this`trees, trees.Values, w, w.tracker
      ensures ok && Elapsed() && AllSound(w.recent)
      ensures Stood(old(w.Now()), w.Now()) ==> Trusted() == old(Trusted()) - Gone(r, w.fs, Elements(reported))
      ensures trees == old(trees) || trees == map[]
    {
      ok := ReplayAll(reported);
      ReplayAgain(reported);
    }

    /** The manifest trees are sound already; replaying on them once more changes no answer. */
    method ReplayAgain(reported: seq<Path>)
      requires AllSound(w.recent)
      modifies this`trees, trees.Values
      ensures AllSound(w.recent)
      ensures trees == old(trees) || trees == map[]
    {
      TreesLater(w.fs, w.recent, w.fs, w.recent + Elements(reported));
      InvalidateManifestCache(reported, w.recent);
    }

    method ReplayAll(reported: seq<Path>) returns (ok: bool)
      requires w.Valid() && AllSound(Elements(reported) + w.recent) && forall p :: p in reported ==> Portable(p)
      modifies this`dirCache, this`dirtyDirs, this`pathCache, this`trees, trees.Values, w, w.tracker
      ensures ok && Elapsed() && AllSound(w.recent)
      ensures Stood(old(w.Now()), w.Now()) ==> Trusted() == old(Trusted()) - Gone(r, w.fs, Elements(reported))
      ensures trees == old(trees) || trees == map[]
    {
      ok := true;
      ghost var m0, trusted := w.Now(), Trusted();
      PassedNothing(m0);
      NothingGone(r, w.fs);
      assert reported[0..] == reported && Elements(reported[..0]) == {};
      var i := 0;
      while i < |reported|
        invariant 0 <= i <= |reported| && ok
        invariant w.Valid() && Passed(m0, w.Now()) && AllSound(Elements(reported[i..]) + w.recent)
        invariant old(w.clock) <= w.clock
        invariant Stood(m0, w.Now()) ==> Trusted() == trusted - Gone(r, w.fs, Elements(reported[..i]))
        invariant trees == old(trees) || trees == map[]
      {
        ElementsHead(reported, i);
        assert reported[..i + 1] == reported[..i] + [reported[i]];
        ElementsMore(reported[..i], reported[i]);
        ok := ReplayOne(reported[i], Elements(reported[i + 1..]), m0, Elements(reported[..i]), trusted);
        i := i + 1;
      }
      assert Elements(reported[i..]) + w.recent == w.recent && reported[..i] == reported;
    }

    /** One reported path leaves the list of those still to replay. */
    method ReplayOne(p: Path, ghost d: set<Path>, ghost m0: Moment, ghost done: set<Path>,
        ghost trusted: map<Path, Digest>)
      returns (ok: bool)
      requires w.Valid() && Portable(p) && Tracked(m0) && Passed(m0, w.Now()) && AllSound(d + {p} + w.recent)
      requires Stood(m0, w.Now()) ==> Trusted() == trusted - Gone(r, w.fs, done)
      modifies this`dirCache, this`dirtyDirs, this`pathCache, this`trees, trees.Values, w, w.tracker
      ensures ok && w.Valid() && Passed(m0, w.Now()) && AllSound(d + w.recent) && old(w.clock) <= w.clock
      ensures Stood(m0, w.Now()) ==> Trusted() == trusted - Gone(r, w.fs, done + {p})
      ensures trees == old(trees) || trees == map[]
    {
      ghost var m := w.Now();
      NormalizeKeepsPortable(p);
      assert NamedBy({JoinPath(p)}) == {p};
      ok := Invalidate(JoinPath(p), d);
      PassedOn(m0, m, w.Now());
      StoodApart(m0, m, w.Now());
      GoneNext(r, w.fs, trusted, done, p);
    }

    ghost predicate Answered(req: Request, hit: bool, res: Result<Answer, Error>)
      requires Admissible(r, req)
      reads w
    {
      RequestAnswer(r, w.fs, w.recent, req, hit, res)
    }

    /** The request will be answered by a trusted digest without looking at the filesystem. */
    ghost predicate Hits(req: Request, verify: bool)
      reads this
    {
      HitIn(req, verify, Trusted())
    }

    /** An answered directory is trusted from then on. */
    ghost predicate Recalled(req: Request, a: Answer)
      reads this
    {
      req.DirectoryRequest? && a.DigestAnswer? ==> req.rel in Trusted() && Trusted()[req.rel] == a.digest
    }

    /** One attempt at a request, against caches that are sound up to what is recent. */
    method Operate(req: Request, verify: bool) returns (res: Result<Answer, Error>)
      requires w.Valid() && AllSound(w.recent) && Admissible(r, req)
      modifies this`dirCache, this`dirtyDirs, this`pathCache, this`trees, trees.Values, store`pending, w, w.tracker
      ensures Elapsed() && AllSound(w.recent) && fresh(trees.Values - old(trees.Values))
      ensures Answered(req, old(Hits(req, verify)), res)
      ensures old(Hits(req, verify)) ==> res == Ok(DigestAnswer(old(Trusted())[req.rel]))
      ensures res.Ok? ==> Recalled(req, res.value)
    {
      match req
      case DirectoryRequest(rel) =>
        res := OperateDirectory(rel, verify);
      case PathRequest(rel) =>
        res := OperatePath(rel, verify);
      case ManifestRequest(paths) =>
        var digest := ComputeManifest(paths, verify);
        res := match digest case Ok(x) => Ok(DigestAnswer(x)) case Err(e) => Err(e);
    }

    method OperateDirectory(rel: Path, verify: bool) returns (res: Result<Answer, Error>)
      requires w.Valid() && AllSound(w.recent) && !Excluded(r, rel)
      modifies this`dirCache, this`dirtyDirs, store`pending, w, w.tracker
      ensures Elapsed() && AllSound(w.recent)
      ensures Answered(DirectoryRequest(rel), old(Hits(DirectoryRequest(rel), verify)), res)
      ensures old(Hits(DirectoryRequest(rel), verify)) ==> res == Ok(DigestAnswer(old(Trusted())[rel]))
      ensures res.Ok? ==> Recalled(DirectoryRequest(rel), res.value)
    {
      ghost var m := w.Now();
      var digest := DigestDirectory(rel, verify);
      OtherCachesAge(m);
      res := match digest case Ok(x) => Ok(DigestAnswer(x)) case Err(e) => Err(e);
    }

    method OperatePath(rel: Path, verify: bool) returns (res: Result<Answer, Error>)
      requires w.Valid() && AllSound(w.recent)
      modifies this`dirCache, this`dirtyDirs, this`pathCache, store`pending, w, w.tracker
      ensures Elapsed() && AllSound(w.recent)
      ensures Answered(PathRequest(rel), false, res)
    {
      ghost var m := w.Now();
      var node := NodeForPath(rel, LeafName(rel), verify);
      Reports(m, w.Now());
      TreesLater(m.fs, m.recent, w.fs, w.recent);
      res := match node case Ok(x) => Ok(PathAnswer(x)) case Err(e) => Err(e);
    }

    /** What an attempt has when it is about to commit. */
    lemma AgeBeforeCommit(m: Moment, req: Request, hit: bool, res: Result<Answer, Error>)
      requires Tracked(m) && Passed(m, w.Now()) && Admissible(r, req) && Mirrored()
      requires DirsSound(r, m.fs, m.recent, dirCache, dirtyDirs) && PathsSound(r, m.fs, m.recent, pathCache)
              && TreesSound(m.fs, m.recent)
      requires RequestAnswer(r, m.fs, m.recent, req, hit, res)
      ensures AllSound(w.recent) && RequestAnswer(r, w.fs, w.recent, req, hit, res)
      ensures w.tracker.state != Unknown ==> AllSound(w.tracker.paths)
    {
      Reports(m, w.Now());
      assert {} + m.recent == m.recent && {} + w.recent == w.recent;
      AllSoundLater(m, {});
      RequestLater(r, m.fs, m.recent, w.fs, w.recent, req, hit, res);
      if w.tracker.state != Unknown {
        DirsLater(r, w.fs, w.recent, w.fs, w.tracker.paths, dirCache, dirtyDirs);
        PathsLater(r, w.fs, w.recent, w.fs, w.tracker.paths, pathCache);
        TreesLater(w.fs, w.recent, w.fs, w.tracker.paths);
      }
    }

    lemma OtherCachesAge(m: Moment)
      requires Tracked(m) && Passed(m, w.Now())
      requires PathsSound(r, m.fs, m.recent, pathCache) && TreesSound(m.fs, m.recent) && DirsHot()
      ensures AllSound(w.recent)
    {
      Reports(m, w.Now());
      PathsAge(r, m, w.Now(), pathCache);
      TreesLater(m.fs, m.recent, w.fs, w.recent);
    }

    /**
     The optimistic loop: snapshot, replay, compute, and commit only if the generation has not
     moved; three attempts. In every interleaving with the environment the reply is faithful to
     the tree the plan leads to; every failure leaves the journal UNKNOWN and the persistent rows
     untouched. If nothing happens during the call, the reply is exact.
     */
    method RunReconciled(req: Request, verify: bool) returns (res: Result<Answer, Failure>)
      requires AtRest() && Admissible(r, req)
      modifies this`dirCache, this`dirtyDirs, this`pathCache, this`trees, trees.Values, store, w, w.tracker
      ensures AtRest() && fresh(trees.Values - old(trees.Values)) && old(w.clock) <= w.clock && store.pending == map[]
      ensures Faithful(r, w.fs, w.initial, w.plan, old(w.clock), w.clock, req, verify, res)
      ensures res.Ok? ==> w.tracker.state == Clean && Recalled(req, res.value)
      ensures res.Err? ==> w.tracker.state == Unknown && store.rows == old(store.rows)
      ensures BusyTicks(w.plan, old(w.clock), w.clock) == 0 ==> w.fs == old(w.fs)
      ensures BusyTicks(w.plan, old(w.clock), w.clock) == 0 && req.DirectoryRequest? ==>
                if !verify && req.rel in old(Remembered()) then res == Ok(DigestAnswer(old(Remembered())[req.rel]))
                else res.Ok? ==> IsDir(w.fs, req.rel)
    {
      ghost var now, clock0, remembered := w.Now(), w.clock, Remembered();
      ghost var hit;
      var outcome;
      outcome, hit := ThreeAttempts(req, verify);
      QuietTree(now, w.Now());
      ghost var rounds: nat :| Tried(req, verify, clock0, remembered, rounds, outcome, hit)
          && (outcome.Moved? ==> rounds == 3);
      ReplyIsFaithful(clock0, req, verify, hit, outcome);
      Conclude(outcome, req, hit);
      res := Reply(outcome);
    }

    /** What the outcome says about the tree at the end of the call. */
    lemma ReplyIsFaithful(clock0: nat, req: Request, verify: bool, hit: bool, outcome: Outcome)
      requires Admissible(r, req) && Settled(req, hit, outcome) && OnTime(w.Now()) && clock0 <= w.since
              && (hit ==> !verify)
      requires outcome.Moved? ==> BusyTicks(w.plan, clock0, w.clock) >= 3
      ensures Faithful(r, w.fs, w.initial, w.plan, clock0, w.clock, req, verify, Reply(outcome))
      ensures outcome.Committed? && !hit && req.DirectoryRequest? ==> IsDir(w.fs, req.rel)
    {
      NothingCoversNothing(r, req);
      OnTimeMeans(w.Now());
      if outcome.Failed? {
        TouchedGrows(w.initial, w.plan, clock0, w.since, w.clock, w.clock);
        RequestCoverage(r, w.recent, Touched(w.initial, w.plan, clock0, w.clock), req);
      }
    }

    /** Make a committed answer's digests persistent; after a failure trust nothing. */
    method Conclude(outcome: Outcome, ghost req: Request, ghost hit: bool)
      requires w.Valid() && TreesValid() && OnTime(w.Now()) && Admissible(r, req) && Settled(req, hit, outcome)
      modifies store, w.tracker
      ensures AtRest() && store.pending == map[]
      ensures outcome.Committed? ==> w.tracker.state == Clean && store.rows == old(store.View())
      ensures !outcome.Committed? ==> w.tracker.state == Unknown && store.rows == old(store.rows)
    {
      if outcome.Committed? {
        Keep();
      } else {
        Discard(if outcome.Failed? then "reconciliation failed"
                else "filesystem changed continuously during reconciliation");
      }
    }

    /** Make persistent what is pending. */
    method Keep()
      requires Mirrored()
      modifies store
      ensures Mirrored() && store.pending == map[] && store.rows == old(store.View())
    {
      var written := store.Flush();
    }

    /** `_discard_failed_reconciliation`. */
    method Discard(why: string)
      requires w.Valid() && TreesValid() && OnTime(w.Now())
      modifies store`pending, w.tracker
      ensures AtRest() && store.pending == map[] && w.tracker.state == Unknown
    {
      w.JournalIsPlain();
      OnTimeMeans(w.Now());
      store.DiscardPending();
      w.tracker.MarkUnknown(why);
      OnTimeMeans(w.Now());
    }

    /** After a commit the persistent rows hold every trusted digest, and each of these is right. */
    lemma PersistentRowsAreCold(rel: Path)
      requires AtRest() && w.tracker.state == Clean && store.pending == map[] && rel in Trusted()
      ensures rel in store.rows && ColdBelow(r, w.fs, rel) == Some(store.rows[rel])
    {
      assert !CoveredBelow(r, {}, rel);
      assert DirectoryAnswer(r, w.fs, {}, rel, Ok(dirCache[rel]));
    }

    /** What some rounds of a call that began at `clock0` have come to. */
    ghost predicate Tried(
      req: Request, verify: bool, clock0: nat, remembered: map<Path, Digest>, rounds: nat, outcome: Outcome, hit: bool)
      requires Admissible(r, req)
      reads this, w, w.tracker, store, trees.Values
    {
      && w.Valid() && TreesValid() && OnTime(w.Now()) && clock0 <= w.since <= w.clock
      && Settled(req, hit, outcome) && (hit ==> !verify)
      && (outcome.Committed? ==> Recalled(req, outcome.answer))
      && (outcome.Moved? ==> BusyTicks(w.plan, clock0, w.clock) >= rounds)
      && (rounds > 1 ==> BusyTicks(w.plan, clock0, w.clock) >= 1)
      && (BusyTicks(w.plan, clock0, w.clock) == 0 ==> FirstTry(req, verify, remembered, outcome, hit))
    }

    /** Repeat until a round commits or raises, at most three times. */
    method ThreeAttempts(req: Request, verify: bool) returns (outcome: Outcome, ghost hit: bool)
      requires AtRest() && Admissible(r, req)
      modifies this`dirCache, this`dirtyDirs, this`pathCache, this`trees, trees.Values, store`pending, w, w.tracker
      ensures fresh(trees.Values - old(trees.Values))
      ensures exists rounds: nat :: Tried(req, verify, old(w.clock), old(Remembered()), rounds, outcome, hit)
                                    && (outcome.Moved? ==> rounds == 3)
    {
      ghost var clock0, remembered := w.clock, Remembered();
      outcome, hit := Attempt(req, verify);
      var attempt: nat := 1;
      while attempt < 3 && outcome.Moved?
        invariant 1 <= attempt <= 3 && fresh(trees.Values - old(trees.Values))
        invariant Tried(req, verify, clock0, remembered, attempt, outcome, hit)
      {
        outcome, hit := TryAgain(req, verify, clock0, remembered, attempt, hit);
        attempt := attempt + 1;
      }
    }

    /** One more round, after rounds that found the generation moved. */
    method TryAgain(
      req: Request, verify: bool, ghost clock0: nat, ghost remembered: map<Path, Digest>, ghost rounds: nat,
          ghost before: bool)
      returns (outcome: Outcome, ghost hit: bool)
      requires rounds >= 1 && Admissible(r, req) && Tried(req, verify, clock0, remembered, rounds, Moved, before)
      modifies this`dirCache, this`dirtyDirs, this`pathCache, this`trees, trees.Values, store`pending, w, w.tracker
      ensures fresh(trees.Values - old(trees.Values))
      ensures Tried(req, verify, clock0, remembered, rounds + 1, outcome, hit)
    {
      ghost var clock1 := w.clock;
      outcome, hit := Attempt(req, verify);
      BusyTicksAdd(w.plan, clock0, clock1, w.clock);
    }

    /** What one round has achieved. */
    ghost predicate Settled(req: Request, hit: bool, outcome: Outcome)
      requires Admissible(r, req)
      reads this, w, w.tracker, store, trees.Values
    {
      match outcome
      case Committed(a) =>
        && w.tracker.state == Clean && w.tracker.paths == {} && AllSound({})
        && RequestAnswer(r, w.fs, {}, req, hit, Ok(a))
      case Failed(e) => RequestAnswer(r, w.fs, w.recent, req, hit, Err(e))
      case Moved => Ready()
    }

    /** Snapshot, replay, compute, commit: one round of the optimistic loop. */
    method Attempt(req: Request, verify: bool) returns (outcome: Outcome, ghost hit: bool)
      requires Ready() && OnTime(w.Now()) && Admissible(r, req)
      modifies this`dirCache, this`dirtyDirs, this`pathCache, this`trees, trees.Values, store`pending, w, w.tracker
      ensures w.Valid() && TreesValid() && fresh(trees.Values - old(trees.Values))
      ensures OnTime(w.Now()) && old(w.clock) == w.since <= w.clock
      ensures Settled(req, hit, outcome) && (hit ==> !verify)
      ensures outcome.Committed? ==> Recalled(req, outcome.answer)
      ensures outcome.Moved? ==> BusyTicks(w.plan, old(w.clock), w.clock) >= 1
      ensures BusyTicks(w.plan, old(w.clock), w.clock) == 0 ==> FirstTry(req, verify, old(Remembered()), outcome, hit)
    {
      ghost var now, ready, end := w.Now(), w.Now(), w.Now();
      RebasedOnTime(now);
      var generation, res;
      ghost var trusted := map[];
      generation, res, trusted, ready := Compute(req, verify);
      ghost var m := w.Now();
      hit := HitIn(req, verify, trusted);
      outcome, end := FinishObservation(generation, req, hit, res);
      PassedOn(ready, m, end);
      RoundTime(Rebased(now), ready, end, w.Now());
    }

    /** Snapshot, replay and compute; `trusted` are the digests trusted once the caches are ready. */
    method Compute(req: Request, verify: bool)
      returns (generation: nat, res: Result<Answer, Error>, ghost trusted: map<Path, Digest>, ghost ready: Moment)
      requires Ready() && Admissible(r, req)
      modifies this`dirCache, this`dirtyDirs, this`pathCache, this`trees, trees.Values, store`pending, w, w.tracker
      ensures w.Valid() && AllSound(w.recent) && fresh(trees.Values - old(trees.Values))
      ensures generation == w.base == old(w.tracker.generation)
      ensures Passed(Rebased(old(w.Now())), ready) && Passed(ready, w.Now())
      ensures Stood(Rebased(old(w.Now())), ready) ==> trusted == old(Remembered())
      ensures Answered(req, HitIn(req, verify, trusted), res) && (res.Ok? ==> Recalled(req, res.value))
      ensures HitIn(req, verify, trusted) ==> res == Ok(DigestAnswer(trusted[req.rel]))
    {
      generation := PrepareObservation();
      assert trees.Values <= old(trees.Values);
      ready, trusted := w.Now(), Trusted();
      res := Operate(req, verify);
      SameBase(ready, w.Now());
    }

    /** Commit an answer unless something happened since the snapshot. */
    method FinishObservation(generation: nat, req: Request, ghost hit: bool, res: Result<Answer, Error>)
      returns (outcome: Outcome, ghost end: Moment)
      requires w.Valid() && AllSound(w.recent) && generation == w.base && Admissible(r, req) && Answered(req, hit, res)
      modifies w, w.tracker
      ensures w.Valid() && TreesValid() && Settled(req, hit, outcome)
      ensures Passed(old(w.Now()), end) && SameTime(end, w.Now())
      ensures outcome == if res.Err? then Failed(res.error)
                         else if end.generation == generation then Committed(res.value) else Moved
      ensures outcome.Moved? ==> w.Now() == end && end.generation > generation
      ensures outcome.Committed? ==> w.recent == {}
    {
      if res.Err? {
        end := w.Now();
        PassedNothing(end);
        outcome := Failed(res.error);
      } else {
        outcome, end := Reconcile(generation, req, hit, res.value);
      }
    }

    /** The commit of an answer, at its own moment. */
    method Reconcile(generation: nat, req: Request, ghost hit: bool, a: Answer)
      returns (outcome: Outcome, ghost end: Moment)
      requires w.Valid() && AllSound(w.recent) && generation == w.base && Admissible(r, req)
              && Answered(req, hit, Ok(a))
      modifies w, w.tracker
      ensures w.Valid() && TreesValid() && Settled(req, hit, outcome)
      ensures Passed(old(w.Now()), end) && SameTime(end, w.Now())
      ensures outcome == if end.generation == generation then Committed(a) else Moved
      ensures outcome.Moved? ==> w.Now() == end && end.generation > generation
      ensures outcome.Committed? ==> w.recent == {}
    {
      ghost var m := w.Now();
      w.Tick();
      end := w.Now();
      AgeBeforeCommit(m, req, hit, Ok(a));
      SameBase(m, end);
      w.JournalIsPlain();
      var committed := w.tracker.MarkReconciled(Some(generation));
      outcome := if committed then Committed(a) else Moved;
    }

    // -------------------------------------------------------------- the public reads

    /**
     `directory_digest`. A returned digest is that of what lies below the path at the end of the
     call: the cold digest if the path is a directory there, which `verify` guarantees, and the
     digest of an empty directory if it is none any more. While nothing happens the reply is
     exact: a remembered digest is returned, else the cold one, and a failure means there is none.
     */
    method DirectoryDigest(rel: Path, verify: bool) returns (res: Result<Digest, Failure>)
      requires AtRest()
      modifies this`dirCache, this`dirtyDirs, this`pathCache, this`trees, trees.Values, store, w, w.tracker
      ensures AtRest() && fresh(trees.Values - old(trees.Values)) && old(w.clock) <= w.clock
      ensures res.Ok? ==> ColdBelow(r, w.fs, rel) == Some(res.value) && (verify ==> IsDir(w.fs, rel))
      ensures res.Ok? ==> w.tracker.state == Clean && rel in Trusted() && Trusted()[rel] == res.value
      ensures res.Err? ==> store.rows == old(store.rows)
      ensures res.Err? && res.error.Raised? ==>
                ColdDirectory(r, w.fs, rel) == None || Covered(r, Touched(w.initial, w.plan, old(w.clock), w.clock),
                    rel)
      ensures res == Err(UnstableObservation) ==> BusyTicks(w.plan, old(w.clock), w.clock) >= 3
      ensures BusyTicks(w.plan, old(w.clock), w.clock) == 0 ==> w.fs == old(w.fs)
      ensures BusyTicks(w.plan, old(w.clock), w.clock) == 0 && !Excluded(r, rel) ==>
                if !verify && rel in old(Remembered()) then res == Ok(old(Remembered())[rel])
                else if ColdDirectory(r, w.fs, rel).Some? then res == Ok(ColdDirectory(r, w.fs, rel).value)
                else res.Err? && res.error.Raised?
    {
      if Excluded(r, rel) {
        res := Err(Raised(ExcludedPath));
      } else {
        ghost var clock0 := w.clock;
        var answer := RunReconciled(DirectoryRequest(rel), verify);
        QuietReply(r, w.fs, w.initial, w.plan, clock0, w.clock, DirectoryRequest(rel), verify, answer);
        res := match answer case Ok(a) => Ok(a.digest) case Err(e) => Err(e);
      }
    }

    /** `path_digest`: the answer is always the cold node; while nothing happens it fails only where there is none. */
    method PathNode(rel: Path, verify: bool) returns (res: Result<Node, Failure>)
      requires AtRest()
      modifies this`dirCache, this`dirtyDirs, this`pathCache, this`trees, trees.Values, store, w, w.tracker
      ensures AtRest() && fresh(trees.Values - old(trees.Values)) && old(w.clock) <= w.clock
      ensures res.Ok? ==> ColdNode(r, w.fs, rel, LeafName(rel)) == Some(res.value)
      ensures res.Err? ==> w.tracker.state == Unknown && store.rows == old(store.rows)
      ensures res.Err? && res.error.Raised? ==>
                || ColdNode(r, w.fs, rel, LeafName(rel)) == None
                || Covered(r, Touched(w.initial, w.plan, old(w.clock), w.clock), rel)
      ensures res == Err(UnstableObservation) ==> BusyTicks(w.plan, old(w.clock), w.clock) >= 3
      ensures BusyTicks(w.plan, old(w.clock), w.clock) == 0 ==>
                match ColdNode(r, w.fs, rel, LeafName(rel))
                case Some(x) => res == Ok(x)
                case None => res.Err? && res.error.Raised?
    {
      ghost var clock0 := w.clock;
      var answer := RunReconciled(PathRequest(rel), verify);
      QuietReply(r, w.fs, w.initial, w.plan, clock0, w.clock, PathRequest(rel), verify, answer);
      res := match answer case Ok(a) => Ok(a.node) case Err(e) => Err(e);
    }

    /** `digest_manifest`: the same for the digest a fresh tree would compute for a whole manifest. */
    method DigestManifest(paths: seq<Path>, verify: bool) returns (res: Result<Digest, Failure>)
      requires AtRest() && forall p :: p in paths ==> p != []
      modifies this`dirCache, this`dirtyDirs, this`pathCache, this`trees, trees.Values, store, w, w.tracker
      ensures AtRest() && fresh(trees.Values - old(trees.Values)) && old(w.clock) <= w.clock
      ensures ManifestShape(paths).Branch?
      ensures res.Ok? ==> ColdRoot(r, w.fs, ManifestShape(paths)) == Some(res.value)
      ensures res.Err? ==> w.tracker.state == Unknown && store.rows == old(store.rows)
      ensures res.Err? && res.error.Raised? ==>
                || ColdRoot(r, w.fs, ManifestShape(paths)) == None
                || ShapeCovered(r, Touched(w.initial, w.plan, old(w.clock), w.clock), ManifestShape(paths))
      ensures res == Err(UnstableObservation) ==> BusyTicks(w.plan, old(w.clock), w.clock) >= 3
      ensures BusyTicks(w.plan, old(w.clock), w.clock) == 0 ==>
                match ColdRoot(r, w.fs, ManifestShape(paths))
                case Some(x) => res == Ok(x)
                case None => res.Err? && res.error.Raised?
    {
      ghost var clock0 := w.clock;
      var answer := RunReconciled(ManifestRequest(paths), verify);
      QuietReply(r, w.fs, w.initial, w.plan, clock0, w.clock, ManifestRequest(paths), verify, answer);
      res := match answer case Ok(a) => Ok(a.digest) case Err(e) => Err(e);
    }

    /** Rest survives time passing between requests. */
    method Idle()
      requires AtRest()
      modifies w, w.tracker
      ensures AtRest() && w.Now() == TickOn(old(w.Now()))
    {
      ghost var m := w.Now();
      w.Tick();
      PassedOnTime(m, w.Now());
      RestAges(m);
    }

    lemma RestAges(m: Moment)
      requires Tracked(m) && Passed(m, w.Now()) && w.Valid() && TreesValid()
      requires m.state != Unknown ==>
                 && DirsSound(r, m.fs, m.paths, dirCache, dirtyDirs) && PathsSound(r, m.fs, m.paths, pathCache)
                 && TreesSound(m.fs, m.paths) && Mirrored()
      ensures Ready()
    {
      Reports(m, w.Now());
      if w.tracker.state != Unknown {
        DirsLater(r, m.fs, m.paths, w.fs, w.tracker.paths, dirCache, dirtyDirs);
        PathsLater(r, m.fs, m.paths, w.fs, w.tracker.paths, pathCache);
        TreesLater(m.fs, m.paths, w.fs, w.tracker.paths);
      }
    }

    /**
     A whole run: any requests, any events before, between and inside them. Request `i` is served
     in its own window of the clock, the windows following one another, and its reply is faithful
     to the tree the plan has led to at the end of that window.
     */
    method Serve(requests: seq<(Request, bool)>)
      returns (replies: seq<Result<Answer, Failure>>, ghost begun: seq<nat>, ghost ended: seq<nat>)
      requires AtRest() && forall q :: q in requests ==> Admissible(r, q.0)
      modifies this`dirCache, this`dirtyDirs, this`pathCache, this`trees, trees.Values, store, w, w.tracker
      ensures AtRest() && |replies| == |requests|
      ensures InTurn(old(w.clock), begun, ended, w.clock)
      ensures AllFaithful(r, w.initial, w.plan, begun, ended, requests, replies)
    {
      replies, begun, ended := [], [], [];
      while |replies| < |requests|
        invariant AtRest() && |replies| <= |requests| && fresh(trees.Values - old(trees.Values))
        invariant InTurn(old(w.clock), begun, ended, w.clock)
        invariant AllFaithful(r, w.initial, w.plan, begun, ended, requests, replies)
      {
        assert requests[|replies|] in requests;
        var reply;
        ghost var start, clock0 := 0, w.clock;
        reply, start := ServeNext(requests[|replies|].0, requests[|replies|].1);
        InTurnMore(old(w.clock), begun, ended, clock0, start, w.clock);
        FaithfulMore(r, w.initial, w.plan, begun, ended, requests, replies, start, w.clock, reply);
        replies, begun, ended := replies + [reply], begun + [start], ended + [w.clock];
      }
    }

    /** Some time, and one request. */
    method ServeNext(req: Request, verify: bool) returns (reply: Result<Answer, Failure>, ghost start: nat)
      requires AtRest() && Admissible(r, req)
      modifies this`dirCache, this`dirtyDirs, this`pathCache, this`trees, trees.Values, store, w, w.tracker
      ensures AtRest() && fresh(trees.Values - old(trees.Values)) && old(w.clock) < start <= w.clock
      ensures Faithful(r, TreeAfter(w.initial, w.plan, w.clock), w.initial, w.plan, start, w.clock, req, verify, reply)
    {
      ghost var m := w.Now();
      Idle();
      TickMovesClock(m);
      start := w.clock;
      reply := RunReconciled(req, verify);
      OnTimeMeans(w.Now());
    }

    /**
     The one way in which a reply differs from a fresh tree's: read an empty directory, let it be
     removed and the removal be reported exactly, and read it again. As long as nothing else
     happens, the second read returns the first digest, where a fresh tree has none.
     */
    method ReadRemovedDirectory(rel: Path, gone: Tree)
      returns (first: Result<Digest, Failure>, second: Result<Digest, Failure>, ghost t: nat, ghost u: nat,
              ghost quiet: bool)
      requires AtRest() && !Excluded(r, rel) && rel != []
      requires DifferOnlyAt(w.fs, gone, rel) && IsDir(w.fs, rel) && Lookup(gone, rel) == None
      modifies this`dirCache, this`dirtyDirs, this`pathCache, this`trees, trees.Values, store, w, w.tracker
      ensures AtRest() && old(w.clock) <= t && u == t + 1 <= w.clock
      ensures quiet == (&& BusyTicks(w.plan, old(w.clock), t) == 0 && Planned(w.plan, t, gone)
                        && BusyTicks(w.plan, u, w.clock) == 0)
      ensures quiet ==> w.fs == gone && first.Ok? && second == first && ColdDirectory(r, gone, rel) == None
    {
      first, quiet := ReadPresent(rel, gone);
      t := w.clock;
      u := t + 1;
      ghost var removing, held := quiet && Planned(w.plan, t, gone), false;
      second, held := ReadAfterRemoval(rel, gone, removing, first, u);
      quiet := removing && held;
      NoDirectoryNoDigest(r, gone, rel);
    }

    /** The first read, of a directory with a digest: while nothing happens, it is trusted afterwards. */
    method ReadPresent(rel: Path, ghost gone: Tree) returns (res: Result<Digest, Failure>, ghost quiet: bool)
      requires AtRest() && !Excluded(r, rel)
      requires DifferOnlyAt(w.fs, gone, rel) && IsDir(w.fs, rel) && Lookup(gone, rel) == None
      modifies this`dirCache, this`dirtyDirs, this`pathCache, this`trees, trees.Values, store, w, w.tracker
      ensures AtRest() && old(w.clock) <= w.clock && fresh(trees.Values - old(trees.Values))
      ensures quiet == (BusyTicks(w.plan, old(w.clock), w.clock) == 0)
      ensures quiet ==> && DifferOnlyAt(w.fs, gone, rel) && w.tracker.state == Clean
                        && rel in Trusted() && res == Ok(Trusted()[rel])
    {
      ghost var clock0 := w.clock;
      RemovedIsEmpty(r, w.fs, gone, rel);
      res := DirectoryDigest(rel, false);
      quiet := BusyTicks(w.plan, clock0, w.clock) == 0;
    }

    /** The second read of a directory that has just been removed. */
    method ReadAfterRemoval(rel: Path, gone: Tree, ghost removing: bool, ghost first: Result<Digest, Failure>,
        ghost u: nat)
      returns (res: Result<Digest, Failure>, ghost held: bool)
      requires AtRest() && !Excluded(r, rel) && rel != [] && Lookup(gone, rel) == None && u == w.clock + 1
      requires removing ==> Removal(w.Now(), rel, gone) && rel in Trusted() && first == Ok(Trusted()[rel])
      modifies this`dirCache, this`dirtyDirs, this`pathCache, this`trees, trees.Values, store, w, w.tracker
      ensures AtRest() && u <= w.clock
      ensures held == (BusyTicks(w.plan, u, w.clock) == 0)
      ensures removing && held ==> w.fs == gone && res == first
    {
      LetRemove(rel, gone, removing, first);
      res, held := ReadRemembered(rel, gone, removing, first);
    }

    /** While nothing happens, a remembered digest is the answer. */
    method ReadRemembered(rel: Path, ghost fs: Tree, ghost known: bool, ghost first: Result<Digest, Failure>)
      returns (res: Result<Digest, Failure>, ghost held: bool)
      requires AtRest() && !Excluded(r, rel)
      requires known ==> w.fs == fs && rel in Remembered() && first == Ok(Remembered()[rel])
      modifies this`dirCache, this`dirtyDirs, this`pathCache, this`trees, trees.Values, store, w, w.tracker
      ensures AtRest() && old(w.clock) <= w.clock
      ensures held == (BusyTicks(w.plan, old(w.clock), w.clock) == 0)
      ensures known && held ==> w.fs == fs && res == first
    {
      ghost var clock0 := w.clock;
      res := DirectoryDigest(rel, false);
      held := BusyTicks(w.plan, clock0, w.clock) == 0;
    }

    /** The removal happens and is reported: a digest trusted before is still remembered. */
    method LetRemove(rel: Path, gone: Tree, ghost removing: bool, ghost first: Result<Digest, Failure>)
      requires AtRest() && rel != [] && Lookup(gone, rel) == None
      requires removing ==> Removal(w.Now(), rel, gone) && rel in Trusted() && first == Ok(Trusted()[rel])
      modifies w, w.tracker
      ensures AtRest() && w.clock == old(w.clock) + 1
      ensures removing ==> w.fs == gone && rel in Remembered() && first == Ok(Remembered()[rel])
    {
      ghost var m := w.Now();
      Idle();
      TickMovesClock(m);
      if removing {
        RemovalIsReported(m, rel, gone);
        RemovedStays(r, Trusted(), rel, gone);
      }
    }
  }

  /** Two trees hold the same entry at every path but one. */
  ghost predicate DifferOnlyAt(t: Tree, u: Tree, rel: Path) {
    Own(t, rel) != Own(u, rel) && forall p :: p != rel ==> Own(t, p) == Own(u, p)
  }

  lemma DifferenceIsChange(t: Tree, u: Tree, rel: Path)
    requires DifferOnlyAt(t, u, rel)
    ensures Changed(t, u) == {rel}
  {
    forall p ensures p in Changed(t, u) <==> p == rel {
      ChangedIsExact(t, u, p);
    }
  }

  /** The next tick removes a directory, changing nothing else, and reports it. */
  ghost predicate Removal(m: Moment, rel: Path, gone: Tree) {
    m.state == Clean && Planned(m.plan, m.clock, gone) && DifferOnlyAt(m.fs, gone, rel)
  }

  /** One tick brings one edit and its exact report. */
  ghost predicate Planned(plan: Plan, t: nat, tree: Tree) {
    |plan(t)| == 1 && plan(t)[0] == Edit(tree, {})
  }

  lemma NoDirectoryNoDigest(r: Rules, fs: Tree, rel: Path)
    requires Lookup(fs, rel) == None
    ensures ColdDirectory(r, fs, rel) == None
  {
  }

  /** A directory whose removal changes no other path has nothing in it. */
  lemma RemovedIsEmpty(r: Rules, fs: Tree, gone: Tree, rel: Path)
    requires !Excluded(r, rel) && DifferOnlyAt(fs, gone, rel) && IsDir(fs, rel) && Lookup(gone, rel) == None
    ensures ColdDirectory(r, fs, rel).Some? && ColdDirectory(r, gone, rel) == None
  {
    forall n | n in Lookup(fs, rel).value.children ensures false {
      ChildOwn(fs, rel, n);
      ChildOwn(gone, rel, n);
    }
    EmptyBelow(r, fs, rel);
  }

  /** The tick of an exactly reported removal. */
  lemma RemovalIsReported(m: Moment, rel: Path, gone: Tree)
    requires Tracked(m) && Removal(m, rel, gone)
    ensures var n := TickOn(m); n.fs == gone && n.state == Dirty && n.paths == {rel}
  {
    var e := Edit(gone, {});
    assert m.plan(m.clock) == [e] && e in m.plan(m.clock);
    DifferenceIsChange(m.fs, gone, rel);
    ReportIsExact(m.fs, gone, {}, m.maxDepth);
    assert ReportOf(m.fs, gone, {}) == {JoinPath(rel)};
    assert [e][1..] == [];
    assert Run(m, [e]) == Run(After(m, e), []) == After(m, e);
  }

  /** Replaying the removal starts above the directory, so its digest stays. */
  lemma RemovedStays(r: Rules, trusted: map<Path, Digest>, rel: Path, gone: Tree)
    requires rel != [] && Lookup(gone, rel) == None
    ensures rel !in Gone(r, gone, {rel})
  {
    GoneOne(r, gone, rel);
    UpwardIsPrefix(WalkStart(rel, false), rel);
  }

  /** What a selected path turned out to be. */
  datatype Terminal = LinkTerminal(target: Bytes) | FileTerminal | DirectoryTerminal

  // ---------------------------------------------------------------- requests

  datatype Request = DirectoryRequest(rel: Path) | PathRequest(rel: Path) | ManifestRequest(paths: seq<Path>)

  datatype Outcome = Committed(answer: Answer) | Failed(error: Error) | Moved

  datatype Answer = DigestAnswer(digest: Digest) | PathAnswer(node: Node)

  /** What is checked before any observation: directories must not be excluded, manifest paths not the root. */
  predicate Admissible(r: Rules, req: Request) {
    match req
    case DirectoryRequest(rel) => !Excluded(r, rel)
    case PathRequest(_) => true
    case ManifestRequest(paths) => forall p :: p in paths ==> p != []
  }

  function LeafName(rel: Path): Name {
    if rel == [] then [] else rel[|rel| - 1]
  }

  /** What a freshly built tree with no caches answers; `None` where it raises. */
  function Cold(r: Rules, fs: Tree, req: Request): Option<Answer>
    requires Admissible(r, req)
  {
    match req
    case DirectoryRequest(rel) =>
      (match ColdDirectory(r, fs, rel) case Some(x) => Some(DigestAnswer(x)) case None => None)
    case PathRequest(rel) =>
      (match ColdNode(r, fs, rel, LeafName(rel)) case Some(x) => Some(PathAnswer(x)) case None => None)
    case ManifestRequest(paths) =>
      (match ColdRoot(r, fs, ManifestShape(paths)) case Some(x) => Some(DigestAnswer(x)) case None => None)
  }

  function Reply(outcome: Outcome): Result<Answer, Failure> {
    match outcome
    case Committed(a) => Ok(a)
    case Failed(e) => Err(Raised(e))
    case Moved => Err(UnstableObservation)
  }

  predicate FitsRequest(req: Request, a: Answer) {
    req.PathRequest? <==> a.PathAnswer?
  }

  /** A requested directory is still a directory. */
  predicate StillThere(fs: Tree, req: Request) {
    req.DirectoryRequest? ==> IsDir(fs, req.rel)
  }

  /** What the caches may answer: the cold value, save that of a directory that is gone nothing is left below. */
  function Warm(r: Rules, fs: Tree, req: Request): (a: Option<Answer>)
    requires Admissible(r, req)
    ensures StillThere(fs, req) ==> a == Cold(r, fs, req)
  {
    match req
    case DirectoryRequest(rel) =>
      (match ColdBelow(r, fs, rel) case Some(x) => Some(DigestAnswer(x)) case None => None)
    case _ => Cold(r, fs, req)
  }

  ghost predicate RequestCovered(r: Rules, d: set<Path>, req: Request) {
    match req
    case DirectoryRequest(rel) => Covered(r, d, rel)
    case PathRequest(rel) => Covered(r, d, rel)
    case ManifestRequest(paths) => ShapeCovered(r, d, ManifestShape(paths))
  }

  ghost predicate AnswerCovered(r: Rules, d: set<Path>, req: Request) {
    match req
    case DirectoryRequest(rel) => CoveredBelow(r, d, rel)
    case _ => RequestCovered(r, d, req)
  }

  /** A request answered at `fs`, from a trusted digest if `hit`, unless a path in `d` still affects it. */
  ghost predicate RequestAnswer(r: Rules, fs: Tree, d: set<Path>, req: Request, hit: bool, res: Result<Answer, Error>)
    requires Admissible(r, req)
  {
    match res
    case Ok(a) =>
      && FitsRequest(req, a) && (AnswerCovered(r, d, req) || Warm(r, fs, req) == Some(a))
      && (hit || RequestCovered(r, d, req) || StillThere(fs, req))
    case Err(_) => RequestCovered(r, d, req) || Cold(r, fs, req) == None
  }

  lemma RequestCoverage(r: Rules, d: set<Path>, e: set<Path>, req: Request)
    requires d <= e
    ensures RequestCovered(r, d, req) ==> RequestCovered(r, e, req)
    ensures AnswerCovered(r, d, req) ==> AnswerCovered(r, e, req)
  {
    match req
    case ManifestRequest(paths) => CoverageGrows(r, d, e, ManifestShape(paths));
    case _ =>
  }

  lemma ColdLater(r: Rules, fs: Tree, d: set<Path>, gs: Tree, e: set<Path>, req: Request)
    requires Admissible(r, req) && Later(fs, d, gs, e)
    ensures RequestCovered(r, e, req) || (Cold(r, fs, req) == Cold(r, gs, req)
            && (StillThere(fs, req) <==> StillThere(gs, req)))
  {
    if !RequestCovered(r, e, req) {
      match req
      case ManifestRequest(paths) => ResolveLater(r, fs, d, gs, e, ManifestShape(paths));
      case _ =>
        if !Excluded(r, req.rel) {
          VisibleLater(r, fs, d, gs, e, req.rel);
        }
    }
  }

  lemma WarmLater(r: Rules, fs: Tree, d: set<Path>, gs: Tree, e: set<Path>, req: Request)
    requires Admissible(r, req) && Later(fs, d, gs, e)
    ensures AnswerCovered(r, e, req) || Warm(r, fs, req) == Warm(r, gs, req)
  {
    if req.DirectoryRequest? {
      if !CoveredBelow(r, e, req.rel) {
        BelowLater(r, fs, d, gs, e, req.rel);
      }
    } else {
      ColdLater(r, fs, d, gs, e, req);
    }
  }

  lemma RequestLater(r: Rules, fs: Tree, d: set<Path>, gs: Tree, e: set<Path>, req: Request, hit: bool,
      res: Result<Answer, Error>)
    requires Admissible(r, req) && RequestAnswer(r, fs, d, req, hit, res) && Later(fs, d, gs, e)
    ensures RequestAnswer(r, gs, e, req, hit, res)
  {
    RequestCoverage(r, d, e, req);
    ColdLater(r, fs, d, gs, e, req);
    WarmLater(r, fs, d, gs, e, req);
  }

  lemma NothingCoversNothing(r: Rules, req: Request)
    ensures !RequestCovered(r, {}, req) && !AnswerCovered(r, {}, req)
  {
  }

  // ---------------------------------------------------------------- replies and time

  /**
   A reply of a call that took the window from `begin` to `end`, with the tree `fs` at the end. A
   value is the warm value of that tree, and with `verify` the cold one; an error means that there
   is none, or that the window itself touched what was asked for; giving up takes events in three ticks.
   */
  ghost predicate Faithful(
    r: Rules, fs: Tree, initial: Tree, plan: Plan, begin: nat, end: nat,
    req: Request, verify: bool, reply: Result<Answer, Failure>)
    requires Admissible(r, req)
  {
    match reply
    case Ok(a) => FitsRequest(req, a) && Warm(r, fs, req) == Some(a) && (verify ==> StillThere(fs, req))
    case Err(Raised(_)) => Cold(r, fs, req) == None || RequestCovered(r, Touched(initial, plan, begin, end), req)
    case Err(UnstableObservation) => BusyTicks(plan, begin, end) >= 3
  }

  /**
   A reply of a quiet window is that of a fresh tree: its value, or an error where it raises. The
   one exception is a directory read without `verify` that is no directory any more.
   */
  lemma QuietReply(
    r: Rules, fs: Tree, initial: Tree, plan: Plan, begin: nat, end: nat,
    req: Request, verify: bool, reply: Result<Answer, Failure>)
    requires Admissible(r, req) && Faithful(r, fs, initial, plan, begin, end, req, verify, reply)
    ensures BusyTicks(plan, begin, end) == 0 ==>
              match Cold(r, fs, req)
              case Some(a) => reply == Ok(a)
              case None =>
                || (reply.Err? && reply.error.Raised?)
                || (req.DirectoryRequest? && !verify && !IsDir(fs, req.rel) && reply.Ok?)
  {
    if BusyTicks(plan, begin, end) == 0 {
      NothingTouched(initial, plan, begin, end);
      NothingCoversNothing(r, req);
    }
  }

  /** Windows of the clock that follow one another. */
  ghost predicate InTurn(first: nat, begun: seq<nat>, ended: seq<nat>, last: nat) {
    && |begun| == |ended| && first <= last
    && (forall i | 0 <= i < |begun| :: first <= begun[i] <= ended[i] <= last)
    && (forall i, j | 0 <= i < j < |begun| :: ended[i] < begun[j])
  }

  /** Every reply so far is faithful to its own window. */
  ghost predicate AllFaithful(
    r: Rules, initial: Tree, plan: Plan, begun: seq<nat>, ended: seq<nat>,
    requests: seq<(Request, bool)>, replies: seq<Result<Answer, Failure>>)
  {
    && |replies| == |begun| == |ended| <= |requests|
    && forall i | 0 <= i < |replies| ::
         && Admissible(r, requests[i].0)
         && Faithful(r, TreeAfter(initial, plan, ended[i]), initial, plan, begun[i], ended[i],
                     requests[i].0, requests[i].1, replies[i])
  }

  lemma FaithfulMore(
    r: Rules, initial: Tree, plan: Plan, begun: seq<nat>, ended: seq<nat>,
    requests: seq<(Request, bool)>, replies: seq<Result<Answer, Failure>>, b: nat, e: nat,
        reply: Result<Answer, Failure>)
    requires AllFaithful(r, initial, plan, begun, ended, requests, replies) && |replies| < |requests|
    requires Admissible(r, requests[|replies|].0)
    requires Faithful(r, TreeAfter(initial, plan, e), initial, plan, b, e, requests[|replies|].0, requests[|replies|].1,
            reply)
    ensures AllFaithful(r, initial, plan, begun + [b], ended + [e], requests, replies + [reply])
  {
  }

  lemma InTurnMore(first: nat, begun: seq<nat>, ended: seq<nat>, now: nat, b: nat, e: nat)
    requires InTurn(first, begun, ended, now) && now < b <= e
    ensures InTurn(first, begun + [b], ended + [e], e)
  {
  }

  /** A directory request that one of these digests answers. */
  ghost predicate HitIn(req: Request, verify: bool, trusted: map<Path, Digest>) {
    req.DirectoryRequest? && !verify && req.rel in trusted
  }

  /** What the first round of a call does if nothing happens: a remembered digest is the answer. */
  ghost predicate FirstTry(req: Request, verify: bool, remembered: map<Path, Digest>, outcome: Outcome, hit: bool) {
    && (hit <==> HitIn(req, verify, remembered))
    && (hit ==> outcome == Committed(DigestAnswer(remembered[req.rel])))
  }
}
