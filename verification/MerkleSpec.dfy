/**
 The from-scratch identity of a file tree: prune what the walk never shows, then
 hash bottom-up. This is the reference that every cache must agree with.
 */
module MerkleSpec {
  import opened Base
  import opened Encoding

  // ---------------------------------------------------------------- path policy

  datatype Rules = Rules(sha: Sha256, walkIgnore: set<Name>, mandatory: set<Name>, excluded: set<Path>)

  /** Mandatory exclusion: a forbidden segment anywhere, or a path at or below an excluded one. */
  predicate Excluded(r: Rules, rel: Path) {
    && rel != []
    && ((exists s :: s in rel && s in r.mandatory) || (exists e :: e in r.excluded && e != [] && e <= rel))
  }

  predicate WalkIgnored(r: Rules, rel: Path) {
    rel != [] && rel[|rel| - 1] in r.walkIgnore
  }

  predicate Skipped(r: Rules, rel: Path) {
    Excluded(r, rel) || WalkIgnored(r, rel)
  }

  // ---------------------------------------------------------------- visible trees

  /**
   What identity sees: no skipped entries, no special files. A synthetic directory is
   an inner level of a manifest rather than a directory that was walked.
   */
  datatype VTree =
    | VFile(content: Bytes, executable: bool)
    | VLink(target: Bytes)
    | VDir(synthetic: bool, children: map<Name, VTree>)

  function VisibleNames(r: Rules, children: map<Name, Tree>, rel: Path): set<Name> {
    set n | n in children && !Skipped(r, rel + [n]) && !children[n].Special?
  }

  function Visible(r: Rules, t: Tree, rel: Path): (v: VTree)
    requires !t.Special?
    ensures t.Dir? <==> v.VDir?
    ensures v.VDir? ==> !v.synthetic
    decreases t
  {
    match t
    case File(c, x) => VFile(c, x)
    case Link(g) => VLink(g)
    case Dir(children) =>
      VDir(false, map n | n in VisibleNames(r, children, rel) :: Visible(r, children[n], rel + [n]))
  }

  /** The visible tree at a path; `None` where nothing, or a special file, is found. */
  function VisibleAt(r: Rules, fs: Tree, rel: Path): Option<VTree> {
    match Lookup(fs, rel)
    case None => None
    case Some(t) => if t.Special? then None else Some(Visible(r, t, rel))
  }

  // ---------------------------------------------------------------- digests

  function NodeOf(sha: Sha256, v: VTree, name: Name): Option<Node>
    decreases v, 2
  {
    match v
    case VFile(c, x) => Some(FileNode(name, FileDigest(sha, c), x))
    case VLink(g) => Some(LinkNode(name, g))
    case VDir(_, _) =>
      match LevelDigest(sha, LevelDomain(v), v)
      case None => None
      case Some(d) => Some(DirNode(name, d))
  }

  function NodesOf(sha: Sha256, v: VTree, names: seq<Name>): Option<seq<Node>>
    requires v.VDir? && forall n :: n in names ==> n in v.children
    decreases v, 0, |names|
  {
    if names == [] then Some([])
    else
      match NodeOf(sha, v.children[names[0]], names[0])
      case None => None
      case Some(node) =>
        match NodesOf(sha, v, names[1..])
        case None => None
        case Some(rest) => Some([node] + rest)
  }

  /** One directory level hashed under a domain. */
  function LevelDigest(sha: Sha256, d: Domain, v: VTree): Option<Digest>
    requires v.VDir?
    decreases v, 1
  {
    match NodesOf(sha, v, SortNames(v.children.Keys))
    case None => None
    case Some(nodes) => HashNodes(sha, d, nodes)
  }

  function DirectoryDigest(sha: Sha256, v: VTree): Option<Digest>
    requires v.VDir?
  {
    LevelDigest(sha, LevelDomain(v), v)
  }

  function LevelDomain(v: VTree): Domain
    requires v.VDir?
  {
    if v.synthetic then ManifestDirectoryDomain else DirectoryDomain
  }

  /** The cold node of a path under a given name; `None` where a cold read raises. */
  function ColdNode(r: Rules, fs: Tree, rel: Path, name: Name): Option<Node> {
    if Excluded(r, rel) then None
    else
      match VisibleAt(r, fs, rel)
      case None => None
      case Some(v) => NodeOf(r.sha, v, name)
  }

  function ColdDirectory(r: Rules, fs: Tree, rel: Path): Option<Digest> {
    if Excluded(r, rel) then None
    else
      match VisibleAt(r, fs, rel)
      case None => None
      case Some(v) => if v.VDir? then DirectoryDigest(r.sha, v) else None
  }

  lemma {:induction false} NodesOfPointwise(sha: Sha256, v: VTree, names: seq<Name>)
    requires v.VDir? && forall n :: n in names ==> n in v.children
    ensures NodesOf(sha, v, names).Some? <==>
            forall i | 0 <= i < |names| :: NodeOf(sha, v.children[names[i]], names[i]).Some?
    ensures NodesOf(sha, v, names).Some? ==>
              && |NodesOf(sha, v, names).value| == |names|
              && forall i | 0 <= i < |names| :: NodeOf(sha, v.children[names[i]],
                  names[i]) == Some(NodesOf(sha, v, names).value[i])
    decreases |names|
  {
    if names != [] {
      NodesOfPointwise(sha, v, names[1..]);
      assert forall i | 1 <= i < |names| :: names[i] == names[1..][i - 1];
    }
  }

  /** The records of the named children, in the order of the names. */
  ghost predicate ChildRecords(sha: Sha256, children: map<Name, VTree>, names: seq<Name>, records: seq<Bytes>) {
    && |records| == |names|
    && forall i | 0 <= i < |names| :: names[i] in children && RecordOf(sha, children[names[i]], names[i], records[i])
  }

  ghost predicate RecordOf(sha: Sha256, v: VTree, name: Name, record: Bytes) {
    NodeOf(sha, v, name).Some? && EncodeNode(NodeOf(sha, v, name).value) == record
  }

  lemma {:induction false} NodesOfRecords(sha: Sha256, v: VTree, names: seq<Name>, records: seq<Bytes>)
    requires v.VDir? && ChildRecords(sha, v.children, names, records)
    ensures NodesOf(sha, v, names).Some?
    ensures EncodeNodes(NodesOf(sha, v, names).value).Some? ==>
            EncodeNodes(NodesOf(sha, v, names).value).value == Concat(records)
    decreases |names|
  {
    if names != [] {
      NodesOfRecords(sha, v, names[1..], records[1..]);
    }
  }

  /**
   The bytes of a level: the records of its entries, one after the other, by ascending name; its
   digest is their hash under the level's domain, and their number.
   */
  lemma LevelIsItsRecords(sha: Sha256, d: Domain, v: VTree, names: seq<Name>, records: seq<Bytes>)
    requires v.VDir? && LevelDigest(sha, d, v).Some? && ChildRecords(sha, v.children, names, records)
    requires Elements(names) == v.children.Keys && forall i, j | 0 <= i < j < |names| :: Before(names[i], names[j])
    ensures LevelDigest(sha, d, v) == Some(Digest(sha(Message(d, Concat(records))), |Concat(records)|))
  {
    AscendingIsSorted(v.children.Keys, names);
    NodesOfRecords(sha, v, names, records);
  }

  lemma NodeOfName(sha: Sha256, v: VTree, name: Name)
    ensures NodeOf(sha, v, name).Some? ==> NodeOf(sha, v, name).value.name == name
  {
  }

  /** What is hashed for a small file, and for an empty level of each kind. */
  lemma DigestsByExample(sha: Sha256)
    ensures FileDigest(sha, Ascii("hi")) == Digest(sha(Ascii("fastidentity.file.v1\0hi")), 2)
    ensures DirectoryDigest(sha, VDir(false, map[])) == Some(Digest(sha(Ascii("fastidentity.directory.v1\0")), 0))
    ensures DirectoryDigest(sha, VDir(true, map[])) ==
            Some(Digest(sha(Ascii("fastidentity.manifest-directory.v1\0")), 0))
    ensures LevelDigest(sha, InputRootDomain, VDir(true, map[])) ==
            Some(Digest(sha(Ascii("fastidentity.input-root.v1\0")), 0))
    ensures HashBytes(sha, BlobDomain, Ascii("hi")) == Digest(sha(Ascii("fastidentity.blob.v1\0hi")), 2)
  {
    assert Ascii("fastidentity.file.v1\0hi") == Message(FileDomain, Ascii("hi"));
    assert Ascii("fastidentity.blob.v1\0hi") == Message(BlobDomain, Ascii("hi"));
    var none: map<Name, VTree> := map[];
    assert none.Keys == {} && SortNames({}) == [];
    assert forall d :: Message(d, []) == Ascii(DomainText(d));
  }

  // ---------------------------------------------------------------- locality

  /** The two trees hold the same entry at every path at or below `rel` that identity can see. */
  ghost predicate AgreeBelow(r: Rules, t: Tree, u: Tree, rel: Path) {
    forall q :: rel <= q && !Excluded(r, q) ==> Own(t, q) == Own(u, q)
  }

  /** No name on the way down from `rel` is one the walk ignores. */
  predicate Unignored(r: Rules, rel: Path, q: Path) {
    forall i | |rel| <= i < |q| :: q[i] !in r.walkIgnore
  }

  /**
   Identity at a path depends on nothing at or below an excluded path, and on nothing at or below
   an entry with an ignored name; the names of the path itself are not looked at for that.
   */
  lemma {:induction false} HiddenIsIrrelevant(r: Rules, fs: Tree, gs: Tree, rel: Path)
    requires !Excluded(r, rel)
    requires forall q :: rel <= q && Unignored(r, rel, q) && !Excluded(r, q) ==> Own(fs, q) == Own(gs, q)
    ensures VisibleAt(r, fs, rel) == VisibleAt(r, gs, rel)
    decreases if Lookup(fs, rel).Some? then Lookup(fs, rel).value else Special
  {
    assert Own(fs, rel) == Own(gs, rel);
    if IsDir(fs, rel) {
      var t, u := Lookup(fs, rel).value, Lookup(gs, rel).value;
      forall n | !Skipped(r, rel + [n])
        ensures n in VisibleNames(r, t.children, rel) <==> n in VisibleNames(r, u.children, rel)
        ensures n in VisibleNames(r, t.children, rel) && n in VisibleNames(r, u.children, rel) ==>
                  Visible(r, t.children[n], rel + [n]) == Visible(r, u.children[n], rel + [n])
      {
        ChildLookup(fs, rel, n);
        ChildLookup(gs, rel, n);
        assert Own(fs, rel + [n]) == Own(gs, rel + [n]);
        if n in VisibleNames(r, t.children, rel) {
          UnignoredBelow(r, rel, n);
          HiddenIsIrrelevant(r, fs, gs, rel + [n]);
        }
      }
      assert VisibleNames(r, t.children, rel) == VisibleNames(r, u.children, rel);
      assert Visible(r, t, rel) == Visible(r, u, rel);
    }
  }

  lemma UnignoredBelow(r: Rules, rel: Path, n: Name)
    requires !WalkIgnored(r, rel + [n])
    ensures forall q :: rel + [n] <= q && Unignored(r, rel + [n], q) ==> rel <= q && Unignored(r, rel, q)
  {
    forall q | rel + [n] <= q && Unignored(r, rel + [n], q) ensures rel <= q && Unignored(r, rel, q) {
      assert q[|rel|] == n;
    }
  }

  lemma VisibleIsLocal(r: Rules, fs: Tree, gs: Tree, rel: Path)
    requires !Excluded(r, rel) && AgreeBelow(r, fs, gs, rel)
    ensures VisibleAt(r, fs, rel) == VisibleAt(r, gs, rel)
  {
    HiddenIsIrrelevant(r, fs, gs, rel);
  }

  /** Trees that differ only at or below ignored names have the same cold digest above them. */
  lemma IgnoredIsInvisible(r: Rules, fs: Tree, gs: Tree, rel: Path)
    requires forall q :: rel <= q && (forall i | |rel| <= i < |q| :: q[i] !in r.walkIgnore) ==> Own(fs, q) == Own(gs, q)
    ensures ColdDirectory(r, fs, rel) == ColdDirectory(r, gs, rel)
    ensures forall name :: ColdNode(r, fs, rel, name) == ColdNode(r, gs, rel, name)
  {
    if !Excluded(r, rel) {
      HiddenIsIrrelevant(r, fs, gs, rel);
    }
  }

  /**
   What a directory shows of one name, whatever the directory itself is called: an entry that is
   no special file, whose own name the walk does not ignore, with no mandatory name on its path
   and no exclusion at or above it.
   */
  lemma VisibleChildren(r: Rules, fs: Tree, rel: Path, n: Name)
    requires VisibleAt(r, fs, rel).Some? && VisibleAt(r, fs, rel).value.VDir?
    ensures n in VisibleAt(r, fs, rel).value.children <==>
            && Lookup(fs, rel + [n]).Some? && !Lookup(fs, rel + [n]).value.Special?
            && n !in r.walkIgnore && (forall s :: s in rel + [n] ==> s !in r.mandatory)
            && (forall e :: e in r.excluded && e != [] ==> !(e <= rel + [n]))
    ensures n in VisibleAt(r, fs, rel).value.children ==>
            VisibleAt(r, fs, rel + [n]) == Some(VisibleAt(r, fs, rel).value.children[n])
  {
    ChildLookup(fs, rel, n);
  }

  /** A selected root with an ignored name is read like any other: it shows its other children. */
  lemma IgnoredRootShowsItsChildren(r: Rules, fs: Tree, rel: Path, n: Name)
    requires rel != [] && rel[|rel| - 1] in r.walkIgnore && IsDir(fs, rel) && IsFile(fs, rel + [n])
    requires n !in r.walkIgnore && !Excluded(r, rel + [n])
    ensures VisibleAt(r, fs, rel).Some? && VisibleAt(r, fs, rel).value.VDir?
    ensures n in VisibleAt(r, fs, rel).value.children
  {
    VisibleChildren(r, fs, rel, n);
  }

  lemma ChildLookup(fs: Tree, rel: Path, n: Name)
    requires IsDir(fs, rel)
    ensures Lookup(fs, rel).value.Dir?
    ensures Lookup(fs, rel + [n]) ==
              var c := Lookup(fs, rel).value.children; if n in c then Some(c[n]) else None
  {
    LookupThrough(fs, rel, [n]);
    LookupBelow(Lookup(fs, rel).value, n, []);
    assert [n] + [] == [n];
  }

  // ---------------------------------------------------------------- soundness

  /** Every message hashed below a visible tree, the tree's own level under domain `d`. */
  function MessagesUnder(sha: Sha256, d: Domain, v: VTree): set<Bytes>
    decreases v, 0
  {
    match v
    case VFile(c, _) => {Message(FileDomain, c)}
    case VLink(_) => {}
    case VDir(_, children) =>
      (set n, m | n in children && m in Messages(sha, children[n]) :: m)
      + match NodesOf(sha, v, SortNames(children.Keys))
        case None => {}
        case Some(nodes) =>
          match EncodeNodes(nodes)
          case None => {}
          case Some(b) => {Message(d, b)}
  }

  function Messages(sha: Sha256, v: VTree): set<Bytes>
    decreases v, 1
  {
    MessagesUnder(sha, if v.VDir? then LevelDomain(v) else FileDomain, v)
  }

  /**
   Equal nodes mean equal names and equal visible trees at every depth, unless the two
   computations themselves exhibit a SHA-256 collision.
   */
  lemma {:induction false} EqualNodesEqualTrees(sha: Sha256, v: VTree, n: Name, w: VTree, m: Name)
    requires NodeOf(sha, v, n).Some? && NodeOf(sha, v, n) == NodeOf(sha, w, m)
    ensures n == m && (v == w || Collide(sha, Messages(sha, v), Messages(sha, w)))
    decreases v, 1
  {
    NodeOfName(sha, v, n);
    NodeOfName(sha, w, m);
    if v.VFile? && w.VFile? {
      var x, y := Message(FileDomain, v.content), Message(FileDomain, w.content);
      if x == y {
        DomainsSeparate(FileDomain, v.content, FileDomain, w.content);
      } else {
        assert x in Messages(sha, v) && y in Messages(sha, w);
      }
    } else if v.VDir? && w.VDir? {
      EqualLevelsEqualTrees(sha, LevelDomain(v), v, LevelDomain(w), w);
    }
  }

  /** The main soundness result: one level's digest determines its domain and everything below. */
  lemma {:induction false} EqualLevelsEqualTrees(sha: Sha256, d: Domain, v: VTree, e: Domain, w: VTree)
    requires v.VDir? && w.VDir?
    requires LevelDigest(sha, d, v).Some? && LevelDigest(sha, e, w).Some?
    requires LevelDigest(sha, d, v).value.hash == LevelDigest(sha, e, w).value.hash
    ensures (d == e && v.children == w.children) || Collide(sha, MessagesUnder(sha, d, v), MessagesUnder(sha, e, w))
    decreases v, 0
  {
    var ns, ms := SortNames(v.children.Keys), SortNames(w.children.Keys);
    var a, b := NodesOf(sha, v, ns).value, NodesOf(sha, w, ms).value;
    HashNodesIsBinding(sha, d, a, e, b);
    LevelMessage(sha, d, v);
    LevelMessage(sha, e, w);
    if !Collide(sha, MessagesUnder(sha, d, v), MessagesUnder(sha, e, w)) {
      assert d == e && a == b;
      EqualNodeLists(sha, v, ns, w, ms);
      forall i | 0 <= i < |ns| ensures v.children[ns[i]] == w.children[ns[i]] {
        EqualNodesEqualTrees(sha, v.children[ns[i]], ns[i], w.children[ns[i]], ns[i]);
        MessagesInclude(sha, d, v, ns[i]);
        MessagesInclude(sha, e, w, ns[i]);
      }
      SameChildren(v, w, ns);
    }
  }

  lemma EqualNodeLists(sha: Sha256, v: VTree, ns: seq<Name>, w: VTree, ms: seq<Name>)
    requires v.VDir? && w.VDir?
    requires forall n :: n in ns ==> n in v.children
    requires forall n :: n in ms ==> n in w.children
    requires NodesOf(sha, v, ns).Some? && NodesOf(sha, v, ns) == NodesOf(sha, w, ms)
    ensures ns == ms
    ensures forall i | 0 <= i < |ns| ::
              && NodeOf(sha, v.children[ns[i]], ns[i]).Some?
              && NodeOf(sha, v.children[ns[i]], ns[i]) == NodeOf(sha, w.children[ns[i]], ns[i])
  {
    NodesOfPointwise(sha, v, ns);
    NodesOfPointwise(sha, w, ms);
    var x := NodesOf(sha, v, ns).value;
    forall i | 0 <= i < |x| ensures ns[i] == ms[i] {
      NodeOfName(sha, v.children[ns[i]], ns[i]);
      NodeOfName(sha, w.children[ms[i]], ms[i]);
    }
    assert ns == ms;
  }

  lemma SameChildren(v: VTree, w: VTree, ns: seq<Name>)
    requires v.VDir? && w.VDir?
    requires forall n :: n in v.children <==> n in ns
    requires forall n :: n in w.children <==> n in ns
    requires forall i | 0 <= i < |ns| :: v.children[ns[i]] == w.children[ns[i]]
    ensures v.children == w.children
  {
    assert forall n :: n in v.children ==> v.children[n] == w.children[n];
  }

  lemma LevelMessage(sha: Sha256, d: Domain, v: VTree)
    requires v.VDir? && LevelDigest(sha, d, v).Some?
    ensures Message(d, EncodeNodes(NodesOf(sha, v, SortNames(v.children.Keys)).value).value) in MessagesUnder(sha, d, v)
  {
  }

  lemma MessagesInclude(sha: Sha256, d: Domain, v: VTree, n: Name)
    requires v.VDir? && n in v.children
    ensures Messages(sha, v.children[n]) <= MessagesUnder(sha, d, v)
  {
  }

  /** Read at the level of two filesystems: equal directory digests if and only if equal visible trees. */
  lemma EqualDirectoryDigestsEqualTrees(r: Rules, fs: Tree, rel: Path, gs: Tree, sel: Path)
    requires ColdDirectory(r, fs, rel).Some? && ColdDirectory(r, gs, sel).Some?
    ensures var v, w := VisibleAt(r, fs, rel).value, VisibleAt(r, gs, sel).value;
            && (v == w ==> ColdDirectory(r, fs, rel) == ColdDirectory(r, gs, sel))
            && (ColdDirectory(r, fs, rel) == ColdDirectory(r, gs, sel) ==>
                  v == w || Collide(r.sha, Messages(r.sha, v), Messages(r.sha, w)))
  {
    var v, w := VisibleAt(r, fs, rel).value, VisibleAt(r, gs, sel).value;
    if ColdDirectory(r, fs, rel) == ColdDirectory(r, gs, sel) {
      EqualLevelsEqualTrees(r.sha, DirectoryDomain, v, DirectoryDomain, w);
    }
  }
}
