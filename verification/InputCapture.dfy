/**
 The scoped observation: one walk that hashes the selected entries and records each of them,
 within a bound on how many there may be.
 */
module InputCaptures {
  import opened Base
  import opened Encoding
  import opened MerkleSpec
  import opened InputScopes

  // ---------------------------------------------------------------- members

  datatype Kind = FileKind | DirectoryKind | SymlinkKind | OtherKind

  datatype EntryState = EntryState(kind: Kind, size: nat)

  datatype InputMember = InputMember(
    path: Path, kind: Kind, revision: Hash32, fileBytes: nat, executable: Option<bool>, linkTarget: Option<Bytes>)

  datatype InputCounts = InputCounts(files: nat, directories: nat, symlinks: nat, fileBytes: nat)

  datatype CaptureError = BoundExceeded | Unsupported | NotFound | BadAncestor | ExcludedInput | KindChanged | Overflow

  /** `lstat`. */
  function StateAt(fs: Tree, p: Path): Option<EntryState> {
    match Lookup(fs, p)
    case None => None
    case Some(File(c, _)) => Some(EntryState(FileKind, |c|))
    case Some(Link(g)) => Some(EntryState(SymlinkKind, |g|))
    case Some(Dir(_)) => Some(EntryState(DirectoryKind, 0))
    case Some(Special) => Some(EntryState(OtherKind, 0))
  }

  /** What an entry of the pruned tree must be recorded as. */
  function MemberAt(r: Rules, gs: Tree, p: Path): Option<InputMember> {
    match Lookup(gs, p)
    case None => None
    case Some(File(c, x)) => Some(InputMember(p, FileKind, FileDigest(r.sha, c).hash, |c|, Some(x), None))
    case Some(Link(g)) => Some(InputMember(p, SymlinkKind, LinkRevision(r.sha, g).hash, 0, None, Some(g)))
    case Some(Special) => None
    case Some(Dir(_)) =>
      match ColdDirectory(r, gs, p)
      case None => None
      case Some(d) => Some(InputMember(p, DirectoryKind, d.hash, 0, None, None))
  }

  function LinkRevision(sha: Sha256, target: Bytes): Digest {
    Digest(sha(Message(SymlinkDomain, EncodeField(target))), |target|)
  }

  /** `_node_revision`. */
  function NodeRevision(sha: Sha256, node: Node): Digest {
    match node
    case FileNode(_, d, _) => d
    case DirNode(_, d) => d
    case LinkNode(_, g) => LinkRevision(sha, g)
  }

  function KindOf(node: Node): Kind {
    match node
    case FileNode(_, _, _) => FileKind
    case DirNode(_, _) => DirectoryKind
    case LinkNode(_, _) => SymlinkKind
  }

  function MemberOf(p: Path, node: Node, revision: Digest): InputMember {
    match node
    case FileNode(_, _, x) => InputMember(p, FileKind, revision.hash, revision.size, Some(x), None)
    case DirNode(_, _) => InputMember(p, DirectoryKind, revision.hash, 0, None, None)
    case LinkNode(_, g) => InputMember(p, SymlinkKind, revision.hash, 0, None, Some(g))
  }

  lemma ColdNodeIsMember(r: Rules, gs: Tree, p: Path, n: Name, node: Node)
    requires ColdNode(r, gs, p, n) == Some(node)
    ensures MemberAt(r, gs, p) == Some(MemberOf(p, node, NodeRevision(r.sha, node)))
  {
  }

  // ---------------------------------------------------------------- what a revision determines

  /** The messages hashed for one entry's revision. */
  function RevisionMessages(sha: Sha256, v: VTree): set<Bytes> {
    if v.VLink? then {Message(SymlinkDomain, EncodeField(v.target))} else Messages(sha, v)
  }

  /** What a link hashes, no file and no directory hashes, at any depth. */
  lemma {:induction false} LinkMessageIsItsOwn(sha: Sha256, target: Bytes, d: Domain, v: VTree)
    requires d != SymlinkDomain
    ensures Message(SymlinkDomain, EncodeField(target)) !in MessagesUnder(sha, d, v)
    decreases v
  {
    var m := Message(SymlinkDomain, EncodeField(target));
    match v
    case VFile(c, _) =>
      if m == Message(FileDomain, c) {
        DomainsSeparate(SymlinkDomain, EncodeField(target), FileDomain, c);
      }
    case VLink(_) =>
    case VDir(_, children) =>
      forall n | n in children ensures m !in Messages(sha, children[n]) {
        LinkMessageIsItsOwn(sha, target, if children[n].VDir? then LevelDomain(children[n]) else FileDomain,
            children[n]);
      }
      var nodes := NodesOf(sha, v, SortNames(children.Keys));
      if nodes.Some? && EncodeNodes(nodes.value).Some? && m == Message(d, EncodeNodes(nodes.value).value) {
        DomainsSeparate(SymlinkDomain, EncodeField(target), d, EncodeNodes(nodes.value).value);
      }
  }

  lemma LinkTargetIsHashed(g: Bytes, h: Bytes)
    requires Message(SymlinkDomain, EncodeField(g)) == Message(SymlinkDomain, EncodeField(h))
    ensures g == h
  {
    DomainsSeparate(SymlinkDomain, EncodeField(g), SymlinkDomain, EncodeField(h));
    SplitFixed(BigEndian(|g|, 8), g, BigEndian(|h|, 8), h);
  }

  /** The last message hashed for a member, of which its revision is the hash. */
  function RevisionMessage(r: Rules, v: VTree): Option<Bytes> {
    match v
    case VFile(c, _) => Some(Message(FileDomain, c))
    case VLink(g) => Some(Message(SymlinkDomain, EncodeField(g)))
    case VDir(_, children) =>
      match NodesOf(r.sha, v, SortNames(children.Keys))
      case None => None
      case Some(nodes) =>
        match EncodeNodes(nodes)
        case None => None
        case Some(b) => Some(Message(LevelDomain(v), b))
  }

  lemma RevisionMessageIsHashed(r: Rules, v: VTree)
    requires RevisionMessage(r, v).Some?
    ensures RevisionMessage(r, v).value in RevisionMessages(r.sha, v)
  {
    if v.VDir? {
      LevelMessage(r.sha, LevelDomain(v), v);
      assert Messages(r.sha, v) == MessagesUnder(r.sha, LevelDomain(v), v);
    } else if v.VFile? {
      assert Messages(r.sha, v) == MessagesUnder(r.sha, FileDomain, v);
    }
  }

  lemma RevisionIsItsHash(r: Rules, gs: Tree, p: Path, m: InputMember)
    requires MemberAt(r, gs, p) == Some(m)
    ensures VisibleAt(r, gs, p).Some?
    ensures var v := VisibleAt(r, gs, p).value;
            && RevisionMessage(r, v).Some? && m.revision == r.sha(RevisionMessage(r, v).value)
            && RevisionMessage(r, v).value in RevisionMessages(r.sha, v)
            && (v.VFile? ==> m.kind == FileKind && m.executable == Some(v.executable))
            && (v.VLink? ==> m.kind == SymlinkKind && m.linkTarget == Some(v.target))
            && (v.VDir? ==> !v.synthetic && m.kind == DirectoryKind)
  {
    RevisionMessageIsHashed(r, VisibleAt(r, gs, p).value);
  }

  /** Equal content, whatever the execute bit. */
  predicate SameContent(v: VTree, w: VTree) {
    v == w || (v.VFile? && w.VFile? && v.content == w.content)
  }

  lemma EqualMessagesSameContent(r: Rules, v: VTree, w: VTree)
    requires RevisionMessage(r, v).Some? && RevisionMessage(r, v) == RevisionMessage(r, w)
    requires v.VDir? && w.VDir? ==> LevelDomain(v) == LevelDomain(w) && !v.synthetic && !w.synthetic
    ensures SameContent(v, w) || Collide(r.sha, RevisionMessages(r.sha, v), RevisionMessages(r.sha, w))
  {
    if v.VDir? && w.VDir? {
      EqualLevelsEqualTrees(r.sha, LevelDomain(v), v, LevelDomain(w), w);
    } else if v.VLink? && w.VLink? {
      LinkTargetIsHashed(v.target, w.target);
    } else {
      KindsHashApart(r, v, w);
    }
  }

  lemma KindsHashApart(r: Rules, v: VTree, w: VTree)
    requires RevisionMessage(r, v).Some? && RevisionMessage(r, v) == RevisionMessage(r, w)
    ensures v.VFile? == w.VFile? && v.VLink? == w.VLink?
    ensures v.VFile? ==> v.content == w.content
  {
    var (d, x) := Tagged(r, v);
    var (e, y) := Tagged(r, w);
    DomainsSeparate(d, x, e, y);
  }

  function Tagged(r: Rules, v: VTree): (t: (Domain, Bytes))
    requires RevisionMessage(r, v).Some?
    ensures Message(t.0, t.1) == RevisionMessage(r, v).value
    ensures t.0 == if v.VFile? then FileDomain else if v.VLink? then SymlinkDomain else LevelDomain(v)
    ensures v.VFile? ==> t.1 == v.content
  {
    match v
    case VFile(c, _) => (FileDomain, c)
    case VLink(g) => (SymlinkDomain, EncodeField(g))
    case VDir(_, children) => (LevelDomain(v), EncodeNodes(NodesOf(r.sha, v, SortNames(children.Keys)).value).value)
  }

  /**
   Revisions bind: members with equal revisions are of one kind and show the same content (links
   the same target, directories the same visible tree, files the same bytes), or two different
   messages hashed for them collide. With equal execute bits the visible trees are equal.
   */
  lemma RevisionsBind(r: Rules, gs: Tree, p: Path, m: InputMember, hs: Tree, q: Path, n: InputMember)
    requires MemberAt(r, gs, p) == Some(m) && MemberAt(r, hs, q) == Some(n) && m.revision == n.revision
    ensures VisibleAt(r, gs, p).Some? && VisibleAt(r, hs, q).Some?
    ensures var v, w := VisibleAt(r, gs, p).value, VisibleAt(r, hs, q).value;
            || Collide(r.sha, RevisionMessages(r.sha, v), RevisionMessages(r.sha, w))
            || (m.kind == n.kind && m.linkTarget == n.linkTarget && SameContent(v, w)
                && (m.executable == n.executable ==> v == w))
  {
    RevisionIsItsHash(r, gs, p, m);
    RevisionIsItsHash(r, hs, q, n);
    var v, w := VisibleAt(r, gs, p).value, VisibleAt(r, hs, q).value;
    if RevisionMessage(r, v) == RevisionMessage(r, w) {
      EqualMessagesSameContent(r, v, w);
      KindsHashApart(r, v, w);
    } else {
      assert RevisionMessage(r, v).value in RevisionMessages(r.sha, v);
      assert RevisionMessage(r, w).value in RevisionMessages(r.sha, w);
    }
  }

  // ---------------------------------------------------------------- counting

  type Sampler = Path -> Option<EntryState>

  function Sampled(fs: Tree): Sampler {
    p => StateAt(fs, p)
  }

  function OfKind(at: Sampler, s: set<Path>, kind: Kind): set<Path> {
    set p | p in s && at(p).Some? && at(p).value.kind == kind
  }

  function FileSize(at: Sampler, p: Path): nat {
    if at(p).Some? && at(p).value.kind == FileKind then at(p).value.size else 0
  }

  ghost function TotalBytes(at: Sampler, s: set<Path>): nat {
    if s == {} then 0
    else
      var p :| p in s;
      FileSize(at, p) + TotalBytes(at, s - {p})
  }

  /** The sum does not depend on the order of summation. */
  lemma {:induction false} TotalBytesMore(at: Sampler, s: set<Path>, p: Path)
    requires p !in s
    ensures TotalBytes(at, s + {p}) == FileSize(at, p) + TotalBytes(at, s)
    decreases |s|
  {
    var u := s + {p};
    var q :| q in u && TotalBytes(at, u) == FileSize(at, q) + TotalBytes(at, u - {q});
    if q == p {
      assert u - {q} == s;
    } else {
      TotalBytesMore(at, s - {q}, p);
      assert u - {q} == (s - {q}) + {p};
      TotalBytesMore(at, s - {q}, q);
      assert (s - {q}) + {q} == s;
    }
  }

  ghost function Tally(at: Sampler, s: set<Path>): InputCounts {
    InputCounts(|OfKind(at, s, FileKind)|, |OfKind(at, s, DirectoryKind)|, |OfKind(at, s, SymlinkKind)|,
        TotalBytes(at, s))
  }

  function Counted(c: InputCounts, st: EntryState): InputCounts {
    InputCounts(
      c.files + if st.kind == FileKind then 1 else 0,
      c.directories + if st.kind == DirectoryKind then 1 else 0,
      c.symlinks + if st.kind == SymlinkKind then 1 else 0,
      c.fileBytes + if st.kind == FileKind then st.size else 0)
  }

  lemma OfKindMore(at: Sampler, s: set<Path>, p: Path, kind: Kind)
    requires p !in s && at(p).Some?
    ensures |OfKind(at, s + {p}, kind)| == |OfKind(at, s, kind)| + if at(p).value.kind == kind then 1 else 0
  {
    var before, after := OfKind(at, s, kind), OfKind(at, s + {p}, kind);
    if at(p).value.kind == kind {
      assert after == before + {p};
    } else {
      assert after == before;
    }
  }

  lemma TallyMore(at: Sampler, s: set<Path>, p: Path)
    requires p !in s && at(p).Some?
    ensures Tally(at, s + {p}) == Counted(Tally(at, s), at(p).value)
  {
    OfKindMore(at, s, p, FileKind);
    OfKindMore(at, s, p, DirectoryKind);
    OfKindMore(at, s, p, SymlinkKind);
    TotalBytesMore(at, s, p);
  }

  // ---------------------------------------------------------------- the invariant

  type Recorder = Path -> Option<InputMember>

  function Recorded(r: Rules, gs: Tree): Recorder {
    p => MemberAt(r, gs, p)
  }

  /** Everything sampled so far is selected, supported and within the bound. */
  ghost predicate Sampling(at: Sampler, all: set<Path>, bound: nat, states: map<Path, EntryState>) {
    && states.Keys <= all && |states| <= bound
    && (forall p :: p in states ==> at(p) == Some(states[p]) && states[p].kind != OtherKind)
  }

  lemma SamplingMore(at: Sampler, all: set<Path>, bound: nat, states: map<Path, EntryState>, p: Path, st: EntryState)
    requires Sampling(at, all, bound, states)
    requires p !in states && p in all && |states| < bound && at(p) == Some(st) && st.kind != OtherKind
    ensures Sampling(at, all, bound, states[p := st])
  {
    OneMoreState(states, p, st);
  }

  /** Everything captured so far is selected, within the bound, counted, and recorded right. */
  ghost predicate Inventory(
    at: Sampler, want: Recorder, all: set<Path>, bound: nat,
    states: map<Path, EntryState>, members: map<Path, InputMember>, counts: InputCounts)
  {
    && Sampling(at, all, bound, states) && counts == Tally(at, states.Keys)
    && members.Keys <= states.Keys
    && (forall p :: p in members ==> want(p) == Some(members[p]))
  }

  /** Why a capture may refuse a selection: it is too large, or holds an unsupported entry. */
  ghost predicate Refusal(at: Sampler, all: set<Path>, bound: nat, e: CaptureError) {
    || (e == BoundExceeded && |all| > bound)
    || (e == Unsupported && exists p :: p in all && at(p) == Some(EntryState(OtherKind, 0)))
  }

  lemma SmallerSet<T>(a: set<T>, b: set<T>)
    requires a <= b
    ensures |a| <= |b|
  {
    assert b == a + (b - a);
  }

  lemma InventoryMore(
    at: Sampler, want: Recorder, all: set<Path>, bound: nat,
    states: map<Path, EntryState>, members: map<Path, InputMember>, counts: InputCounts, p: Path, st: EntryState)
    requires Inventory(at, want, all, bound, states, members, counts)
    requires p !in states && p in all && |states| < bound && at(p) == Some(st) && st.kind != OtherKind
    ensures Inventory(at, want, all, bound, states[p := st], members, Counted(counts, st))
    ensures states[p := st].Keys == states.Keys + {p}
  {
    TallyMore(at, states.Keys, p);
    SamplingMore(at, all, bound, states, p, st);
    OneMoreState(states, p, st);
  }

  lemma OneMoreState(states: map<Path, EntryState>, p: Path, st: EntryState)
    requires p !in states
    ensures states[p := st].Keys == states.Keys + {p} && |states[p := st]| == |states| + 1
  {
    assert states[p := st].Keys == states.Keys + {p};
    assert |states[p := st]| == |states[p := st].Keys| && |states| == |states.Keys|;
  }

  /** An objection to a selected entry is a reason to refuse the selection. */
  lemma Objected(
    at: Sampler, want: Recorder, all: set<Path>, bound: nat,
    states: map<Path, EntryState>, members: map<Path, InputMember>, counts: InputCounts, p: Path)
    requires Inventory(at, want, all, bound, states, members, counts) && p !in states && p in all
    ensures |states| >= bound ==> Refusal(at, all, bound, BoundExceeded)
    ensures at(p) == Some(EntryState(OtherKind, 0)) ==> Refusal(at, all, bound, Unsupported)
  {
    SmallerSet(states.Keys + {p}, all);
  }

  lemma PendingMore(states: set<Path>, listed: set<Path>, p: Path)
    requires p !in listed
    ensures |(listed + {p}) - states| == |listed - states| + if p in states then 0 else 1
    ensures |states + listed + {p}| == |states| + |(listed + {p}) - states|
  {
    var before, after := listed - states, (listed + {p}) - states;
    assert after == if p in states then before else before + {p};
    assert states + listed + {p} == states + after && |states + after| == |states| + |after|;
  }

  class InputCapture {
    const fs: Tree
    const excluded: set<Path>
    const maxMembers: nat
    var states: map<Path, EntryState>
    var ancestors: set<Path>
    var directories: map<Path, seq<Name>>
    var members: map<Path, InputMember>
    var counts: InputCounts

    /** The tree being hashed: the workspace without the excluded subtrees. */
    function Gs(): Tree {
      Pruned(fs, excluded, [])
    }

    ghost predicate Good(r: Rules, all: set<Path>)
      reads this
    {
      Inventory(Sampled(fs), Recorded(r, Gs()), all, maxMembers, states, members, counts)
    }

    constructor (fs: Tree, excluded: set<Path>, maxMembers: nat)
      ensures this.fs == fs && this.excluded == excluded && this.maxMembers == maxMembers
      ensures states == map[] && members == map[] && ancestors == {}
      ensures forall r, all :: Good(r, all)
    {
      this.fs, this.excluded, this.maxMembers := fs, excluded, maxMembers;
      states, ancestors, directories, members, counts := map[], {}, map[], map[], InputCounts(0, 0, 0, 0);
      new;
      assert Tally(Sampled(fs), {}) == InputCounts(0, 0, 0, 0);
      assert states.Keys == {};
    }

    /**
     `check_pending_member`: given how many listed entries are not captured yet, one more may be
     listed exactly if all of them together stay within the bound.
     */
    method CheckPending(p: Path, pending: nat, ghost listed: set<Path>) returns (r: Result<nat, CaptureError>)
      requires pending == |listed - states.Keys| && p !in listed
      ensures r.Ok? <==> |states.Keys + listed + {p}| <= maxMembers
      ensures r.Ok? ==> r.value == |(listed + {p}) - states.Keys|
      ensures r.Err? ==> r.error == BoundExceeded
    {
      var more: nat := pending + if p in states then 0 else 1;
      PendingMore(states.Keys, listed, p);
      assert |states| == |states.Keys|;
      r := if |states| + more > maxMembers then Err(BoundExceeded) else Ok(more);
    }

    /** `begin`: sample an entry once, and count it. */
    method Begin(p: Path, ghost r: Rules, ghost all: set<Path>) returns (failure: Option<CaptureError>)
      requires Good(r, all) && (Lookup(fs, p).Some? ==> p in all)
      modifies this`states, this`counts
      ensures Good(r, all)
      ensures failure.None? ==> states.Keys == old(states.Keys) + {p} && Lookup(fs, p).Some?
      ensures failure.Some? || p in old(states) ==> states == old(states)
      ensures p in old(states) ==> failure.None?
      ensures failure.Some? && Lookup(fs, p).Some? ==> Refusal(Sampled(fs), all, maxMembers, failure.value)
      ensures failure.Some? && Lookup(fs, p).None? ==>
              failure.value == if |old(states)| >= maxMembers then BoundExceeded else NotFound
    {
      failure := None;
      if p !in states {
        var observed := Sampled(fs)(p);
        failure := Objection(observed);
        if failure.None? {
          InventoryMore(Sampled(fs), Recorded(r, Gs()), all, maxMembers, states, members, counts, p, observed.value);
          counts, states := Counted(counts, observed.value), states[p := observed.value];
        } else if p in all {
          Objected(Sampled(fs), Recorded(r, Gs()), all, maxMembers, states, members, counts, p);
        }
      }
      assert p in states ==> states.Keys == states.Keys + {p};
    }

    /** What stands against sampling one more entry: the bound, its absence, or its kind, in that order. */
    function Objection(observed: Option<EntryState>): Option<CaptureError>
      reads this`states
    {
      if |states| >= maxMembers then Some(BoundExceeded)
      else if observed.None? then Some(NotFound)
      else if observed.value.kind == OtherKind then Some(Unsupported)
      else None
    }

    /** `bind_ancestors`: every proper ancestor, nearest first, must be a real directory. */
    method BindAncestors(p: Path) returns (failure: Option<CaptureError>)
      requires forall a :: a in ancestors ==> IsDir(fs, a)
      modifies this`ancestors
      ensures forall a :: a in ancestors ==> IsDir(fs, a)
      ensures failure.None? ==> ancestors == old(ancestors) + set k | 0 <= k < |p| :: p[..k]
      ensures failure.None? ==> forall k | 0 <= k < |p| :: IsDir(fs, p[..k])
      ensures failure.Some? ==>
              exists k | 0 <= k < |p| :: if failure.value == NotFound then Lookup(fs,
              p[..k]).None? else failure.value == BadAncestor && !IsDir(fs, p[..k])
    {
      var k := |p|;
      while k > 0
        invariant 0 <= k <= |p|
        invariant forall a :: a in ancestors ==> IsDir(fs, a)
        invariant forall j | k <= j < |p| :: IsDir(fs, p[..j])
        invariant ancestors == old(ancestors) + set j | k <= j < |p| :: p[..j]
      {
        k := k - 1;
        if p[..k] !in ancestors {
          var observed := StateAt(fs, p[..k]);
          if observed.None? {
            return Some(NotFound);
          }
          if observed.value.kind != DirectoryKind {
            return Some(BadAncestor);
          }
          ancestors := ancestors + {p[..k]};
        }
      }
      return None;
    }

    /** `record`: a node of the sampled kind becomes the member; a correct node keeps the inventory correct. */
    method Record(p: Path, node: Node, revision: Digest, ghost r: Rules, ghost all: set<Path>)
      returns (failure: Option<CaptureError>)
      requires p in states
      modifies this`members
      ensures failure == if states[p].kind == KindOf(node) then None else Some(KindChanged)
      ensures members == if failure.None? then old(members)[p := MemberOf(p, node, revision)] else old(members)
      ensures old(Good(r, all)) && MemberAt(r, Gs(), p) == Some(MemberOf(p, node, revision)) ==> Good(r, all)
    {
      if states[p].kind != KindOf(node) {
        return Some(KindChanged);
      }
      members := members[p := MemberOf(p, node, revision)];
      return None;
    }
  }
}
