/**
 The captured members as they leave the process, and the checks a peer makes on them without
 seeing the filesystem: whatever a scoped observation captures passes them all.
 */
module InputValidation {
  import opened Base
  import opened MerkleSpec
  import opened ManifestTrie
  import opened ManifestShapes
  import opened PathText
  import opened Normalization
  import opened InputScopes
  import opened ScopedTrees
  import opened InputCaptures
  import opened ScopedObservations
  import opened InputObservations

  // ---------------------------------------------------------------- members in order

  function PathsOf(ms: seq<InputMember>): seq<Path> {
    seq(|ms|, i requires 0 <= i < |ms| => ms[i].path)
  }

  function CountKind(ms: seq<InputMember>, kind: Kind): nat {
    if ms == [] then 0 else CountKind(ms[..|ms| - 1], kind) + if ms[|ms| - 1].kind == kind then 1 else 0
  }

  function SumBytes(ms: seq<InputMember>): nat {
    if ms == [] then 0 else SumBytes(ms[..|ms| - 1]) + ms[|ms| - 1].fileBytes
  }

  function CountsOf(ms: seq<InputMember>): InputCounts {
    InputCounts(CountKind(ms, FileKind), CountKind(ms, DirectoryKind), CountKind(ms, SymlinkKind), SumBytes(ms))
  }

  /** The members listed once each, in text order. */
  ghost predicate ListsMembers(members: map<Path, InputMember>, ms: seq<InputMember>) {
    && TextSorted(PathsOf(ms)) && Elements(PathsOf(ms)) == members.Keys
    && forall m :: m in ms ==> m.path in members && members[m.path] == m
  }

  /** `result`: the members sorted by encoded path, and their counts. */
  method Results(cap: InputCapture) returns (ms: seq<InputMember>, counts: InputCounts)
    requires forall p :: p in cap.members ==> Plain(p) && cap.members[p].path == p
    ensures ListsMembers(cap.members, ms) && counts == CountsOf(ms)
  {
    var texts := SortNames(set p | p in cap.members :: JoinPath(p));
    ms := [];
    for i := 0 to |texts|
      invariant |ms| == i
      invariant forall k | 0 <= k < i ::
                  && ms[k].path in cap.members && cap.members[ms[k].path] == ms[k]
                  && JoinPath(ms[k].path) == texts[k]
    {
      assert texts[i] in texts;
      var p :| p in cap.members && JoinPath(p) == texts[i];
      ms := ms + [cap.members[p]];
    }
    TextsListMembers(cap.members, texts, ms);
    counts := CountsOf(ms);
  }

  lemma TextsListMembers(members: map<Path, InputMember>, texts: seq<Bytes>, ms: seq<InputMember>)
    requires forall p :: p in members ==> Plain(p) && members[p].path == p
    requires texts == SortNames(set p | p in members :: JoinPath(p)) && |ms| == |texts|
    requires forall k | 0 <= k < |ms| ::
               && ms[k].path in members && members[ms[k].path] == ms[k]
               && JoinPath(ms[k].path) == texts[k]
    ensures ListsMembers(members, ms)
  {
    forall p | p in members ensures p in PathsOf(ms) {
      assert JoinPath(p) in texts;
      var k :| 0 <= k < |texts| && texts[k] == JoinPath(p);
      JoinPathInjective(ms[k].path, p);
      assert PathsOf(ms)[k] == p;
    }
  }

  // ---------------------------------------------------------------- the checks of a peer

  /** What a report says about its own scope. */
  datatype Scope = Scope(
    roots: seq<Path>, excluded: set<Path>, ignored: set<Name>, mandatory: set<Name>, internal: set<Path>)

  datatype Rejection = BadScope | TooManyMembers | BadMember | Unordered | MissingRoot | UncollapsedExclusions |
      OutsideScope | MissingDirectory | InternalEntry | WrongCounts

  /** `_ancestors`: the path itself included. */
  function Ancestors(p: Path): set<Path> {
    set k | 0 < k <= |p| :: p[..k]
  }

  /** `_member_details`. */
  predicate DetailsOk(m: InputMember) {
    && m.kind != OtherKind
    && (if m.kind == FileKind then m.executable.Some? && m.linkTarget.None? else m.fileBytes == 0 && m.executable.None?)
    && (if m.kind == SymlinkKind then m.linkTarget.Some? && m.linkTarget.value != []
        && 0 !in m.linkTarget.value else m.linkTarget.None?)
  }

  /** A path a peer accepts from its text. */
  predicate Canonical(p: Path) {
    NormalizeInput(JoinPath(p)) == Some(p)
  }

  predicate AllCanonical(s: set<Path>) {
    forall p :: p in s ==> Canonical(p)
  }

  /** `_names`. */
  predicate NamesOk(names: set<Name>) {
    forall n :: n in names ==> Canonical([n])
  }

  /** `_paths` and `_names` over what is read of a scope before the members. */
  ghost predicate ScopeOk(s: Scope) {
    && TextSorted(s.roots) && AllCanonical(Elements(s.roots)) && AllCanonical(s.excluded) && AllCanonical(s.internal)
    && NamesOk(s.mandatory)
  }

  /** What names must be like for that. */
  lemma CanonicalIsPortable(p: Path)
    ensures Canonical(p) <==> p != [] && Portable(p)
  {
    NormalizeKeepsPortable(p);
  }

  function KindsOf(ms: seq<InputMember>): map<Path, Kind> {
    if ms == [] then map[] else KindsOf(ms[..|ms| - 1])[ms[|ms| - 1].path := ms[|ms| - 1].kind]
  }

  predicate OneRoot(roots: set<Path>, p: Path) {
    |roots * Ancestors(p)| == 1
  }

  predicate InDirectory(roots: set<Path>, kinds: map<Path, Kind>, p: Path) {
    p in roots || (p != [] && p[..|p| - 1] in kinds && kinds[p[..|p| - 1]] == DirectoryKind)
  }

  predicate Collapsed(excluded: set<Path>) {
    forall p :: p in excluded ==> excluded * (Ancestors(p) - {p}) == {}
  }

  predicate Internal(mandatory: set<Name>, internal: set<Path>, p: Path) {
    (exists n :: n in p && n in mandatory) || internal * Ancestors(p) != {}
  }

  /** `_member`, on every member. */
  predicate AllMembersOk(ms: seq<InputMember>) {
    forall m :: m in ms ==> Canonical(m.path) && DetailsOk(m)
  }

  predicate AllInScope(roots: set<Path>, excluded: set<Path>, ms: seq<InputMember>) {
    forall m :: m in ms ==> OneRoot(roots, m.path) && excluded * Ancestors(m.path) == {}
  }

  predicate AllInDirectories(roots: set<Path>, kinds: map<Path, Kind>, ms: seq<InputMember>) {
    forall m :: m in ms ==> InDirectory(roots, kinds, m.path)
  }

  predicate NoneInternal(mandatory: set<Name>, internal: set<Path>, ms: seq<InputMember>) {
    forall m :: m in ms ==> !Internal(mandatory, internal, m.path)
  }

  /**
   The scope's own paths, `_members`, `_validate_member_scope`, `_validate_internal_policy`,
   `_counts` and the ignored names, in that order.
   */
  ghost function Validate(s: Scope, ms: seq<InputMember>, counts: InputCounts, bound: nat): Option<Rejection> {
    var rootSet, kinds := Elements(s.roots), KindsOf(ms);
    if !ScopeOk(s) then Some(BadScope)
    else if |ms| > bound then Some(TooManyMembers)
    else if !AllMembersOk(ms) then Some(BadMember)
    else if !TextSorted(PathsOf(ms)) then Some(Unordered)
    else if !(rootSet <= kinds.Keys) then Some(MissingRoot)
    else if !Collapsed(s.excluded) then Some(UncollapsedExclusions)
    else if !AllInScope(rootSet, s.excluded, ms) then Some(OutsideScope)
    else if !AllInDirectories(rootSet, kinds, ms) then Some(MissingDirectory)
    else if !NoneInternal(s.mandatory, s.internal, ms) then Some(InternalEntry)
    else if counts != CountsOf(ms) then Some(WrongCounts)
    else if !NamesOk(s.ignored) then Some(BadScope)
    else None
  }

  /** The scope an observation reports. */
  function ScopeOf(r: Rules, excluded: set<Path>, paths: seq<Path>): Scope {
    Scope(paths, excluded, r.walkIgnore, r.mandatory, r.excluded)
  }

  /** One name with a backslash among the members, and the whole report is refused. */
  lemma BackslashIsRejected(s: Scope, ms: seq<InputMember>, counts: InputCounts, bound: nat, m: InputMember, n: Name)
    requires ScopeOk(s) && |ms| <= bound && m in ms && n in m.path && BACKSLASH in n
    ensures Validate(s, ms, counts, bound) == Some(BadMember)
  {
    BackslashHasNoText(m.path, n, JoinPath(m.path));
  }

  // ---------------------------------------------------------------- what acceptance means

  /** The paths and names of a report are portable, and its roots ascend by text. */
  ghost predicate PortableScope(s: Scope) {
    && (forall i, j | 0 <= i < j < |s.roots| :: Before(JoinPath(s.roots[i]), JoinPath(s.roots[j])))
    && AllPortable(Elements(s.roots)) && AllPortable(s.excluded) && AllPortable(s.internal)
    && (forall n :: n in s.mandatory || n in s.ignored ==> Portable([n]))
  }

  ghost predicate AllPortable(s: set<Path>) {
    forall p :: p in s ==> p != [] && Portable(p)
  }

  /** One member by itself: a portable path, and just the details of its kind. */
  ghost predicate WellFormed(m: InputMember) {
    && m.path != [] && Portable(m.path)
    && match m.kind
      case FileKind => m.executable.Some? && m.linkTarget.None?
      case DirectoryKind => m.fileBytes == 0 && m.executable.None? && m.linkTarget.None?
      case SymlinkKind =>
        && m.fileBytes == 0 && m.executable.None?
        && m.linkTarget.Some? && m.linkTarget.value != [] && forall b :: b in m.linkTarget.value ==> b != 0
      case OtherKind => false
  }

  /** One root at or above a path, and no exclusion. */
  ghost predicate Reached(s: Scope, p: Path) {
    && (exists t :: t in s.roots && t <= p)
    && (forall t, u :: t in s.roots && u in s.roots && t <= p && u <= p ==> t == u)
    && (forall e :: e in s.excluded ==> !(e <= p))
  }

  /** The directory of a path is listed, unless the path is a root. */
  ghost predicate Housed(s: Scope, ms: seq<InputMember>, p: Path)
    requires p != []
  {
    p !in s.roots ==> exists m :: m in ms && m.kind == DirectoryKind && m.path == p[..|p| - 1]
  }

  /** No policy bars a path: no internal path at or above it, no mandatory name in it. */
  ghost predicate Unbarred(s: Scope, p: Path) {
    && (forall e :: e in s.internal ==> !(e <= p))
    && (forall n :: n in p ==> n !in s.mandatory)
  }

  ghost predicate Belongs(s: Scope, ms: seq<InputMember>, p: Path)
    requires p != []
  {
    Reached(s, p) && Housed(s, ms, p) && Unbarred(s, p)
  }

  ghost predicate Ascending(ms: seq<InputMember>) {
    forall i, j | 0 <= i < j < |ms| :: Before(JoinPath(ms[i].path), JoinPath(ms[j].path))
  }

  ghost predicate RootsListed(s: Scope, ms: seq<InputMember>) {
    forall t :: t in s.roots ==> exists m :: m in ms && m.path == t
  }

  ghost predicate ExclusionsApart(s: Scope) {
    forall e, f :: e in s.excluded && f in s.excluded && e <= f ==> e == f
  }

  ghost predicate CountedRight(ms: seq<InputMember>, counts: InputCounts) {
    && counts.files == |set m | m in ms && m.kind == FileKind|
    && counts.directories == |set m | m in ms && m.kind == DirectoryKind|
    && counts.symlinks == |set m | m in ms && m.kind == SymlinkKind|
    && counts.fileBytes == SumBytes(ms)
  }

  ghost predicate AllWellFormed(ms: seq<InputMember>) {
    forall m :: m in ms ==> WellFormed(m)
  }

  ghost predicate AllBelong(s: Scope, ms: seq<InputMember>) {
    forall m :: m in ms ==> m.path != [] && Belongs(s, ms, m.path)
  }

  /** What a report must be like, said of its paths and members alone. */
  ghost predicate Coherent(s: Scope, ms: seq<InputMember>, counts: InputCounts, bound: nat) {
    && PortableScope(s) && |ms| <= bound && AllWellFormed(ms) && Ascending(ms)
    && RootsListed(s, ms) && ExclusionsApart(s) && AllBelong(s, ms) && CountedRight(ms, counts)
  }

  lemma ByteOrderOfPaths(paths: seq<Path>)
    ensures TextSorted(paths) <==>
            forall i, j | 0 <= i < j < |paths| :: Before(JoinPath(paths[i]), JoinPath(paths[j]))
  {
    forall i, j | 0 <= i < j < |paths|
      ensures LexLess(JoinPath(paths[i]), JoinPath(paths[j])) <==> Before(JoinPath(paths[i]), JoinPath(paths[j]))
    {
      LexLessIsByteOrder(JoinPath(paths[i]), JoinPath(paths[j]));
    }
  }

  lemma CanonicalArePortable(s: set<Path>)
    ensures AllCanonical(s) <==> AllPortable(s)
  {
    forall p: Path ensures Canonical(p) <==> p != [] && Portable(p) {
      CanonicalIsPortable(p);
    }
  }

  lemma ScopeIsPortable(s: Scope)
    ensures ScopeOk(s) && NamesOk(s.ignored) <==> PortableScope(s)
  {
    ByteOrderOfPaths(s.roots);
    CanonicalArePortable(Elements(s.roots));
    CanonicalArePortable(s.excluded);
    CanonicalArePortable(s.internal);
    forall n: Name ensures Canonical([n]) <==> Portable([n]) {
      CanonicalIsPortable([n]);
    }
  }

  lemma MembersAreWellFormed(ms: seq<InputMember>)
    ensures AllMembersOk(ms) <==> AllWellFormed(ms)
  {
    forall p: Path ensures Canonical(p) <==> p != [] && Portable(p) {
      CanonicalIsPortable(p);
    }
  }

  lemma RootsAtOrAbove(roots: seq<Path>, p: Path)
    requires forall t :: t in roots ==> t != []
    ensures OneRoot(Elements(roots), p) <==>
            && (exists t :: t in roots && t <= p)
            && (forall t, u :: t in roots && u in roots && t <= p && u <= p ==> t == u)
  {
    var common := Elements(roots) * Ancestors(p);
    forall q ensures q in common <==> q in roots && q <= p {
      AncestorIsPrefix(p, q);
    }
    if t :| t in roots && t <= p {
      assert t in common;
      if forall u :: u in roots && u <= p ==> t == u {
        assert common == {t};
      } else {
        var u :| u in roots && u <= p && t != u;
        SmallerSet({t, u}, common);
      }
    } else {
      assert common == {};
    }
  }

  lemma NothingAbove(barred: set<Path>, p: Path)
    requires [] !in barred
    ensures barred * Ancestors(p) == {} <==> forall e :: e in barred ==> !(e <= p)
  {
    forall e | e in barred ensures e in Ancestors(p) <==> e <= p {
      AncestorIsPrefix(p, e);
    }
    var above := barred * Ancestors(p);
    if above == {} {
      assert forall e :: e in barred ==> e in above || !(e <= p);
    } else {
      var e :| e in above;
      assert e in barred && e <= p;
    }
  }

  lemma CollapsedMeans(s: Scope)
    requires PortablePaths(s)
    ensures Collapsed(s.excluded) <==> ExclusionsApart(s)
  {
    var excluded := s.excluded;
    forall e, f | e in excluded && f in excluded ensures e in Ancestors(f) <==> e <= f {
      AncestorIsPrefix(f, e);
    }
    if Collapsed(excluded) {
      forall e, f | e in excluded && f in excluded && e <= f ensures e == f {
        assert e !in excluded * (Ancestors(f) - {f});
      }
    }
  }

  lemma DirectoryListed(ms: seq<InputMember>, p: Path)
    requires TextSorted(PathsOf(ms))
    ensures p in KindsOf(ms) && KindsOf(ms)[p] == DirectoryKind <==>
            exists m :: m in ms && m.kind == DirectoryKind && m.path == p
  {
    SortedMembersDiffer(ms);
    KindsOfMembers(ms);
    if p in KindsOf(ms) {
      assert p in PathsOf(ms);
      var i :| 0 <= i < |ms| && PathsOf(ms)[i] == p;
      assert ms[i] in ms;
    }
  }

  lemma SortedMembersDiffer(ms: seq<InputMember>)
    requires TextSorted(PathsOf(ms))
    ensures Distinct(ms) && forall m, n :: m in ms && n in ms && m.path == n.path ==> m == n
  {
    forall i, j | 0 <= i < j < |ms| ensures ms[i].path != ms[j].path {
      assert LexLess(JoinPath(PathsOf(ms)[i]), JoinPath(PathsOf(ms)[j]));
      LexTotal(JoinPath(ms[i].path), JoinPath(ms[i].path));
    }
  }

  lemma {:induction false} CountKindIsSize(ms: seq<InputMember>, kind: Kind)
    requires Distinct(ms)
    ensures CountKind(ms, kind) == |set m | m in ms && m.kind == kind|
    decreases |ms|
  {
    if ms == [] {
      assert (set m | m in ms && m.kind == kind) == {};
    } else {
      CountKindIsSize(ms[..|ms| - 1], kind);
      OneMoreOfKind(ms[..|ms| - 1], ms[|ms| - 1], kind);
      assert ms == ms[..|ms| - 1] + [ms[|ms| - 1]];
    }
  }

  lemma OneMoreOfKind(ms: seq<InputMember>, m: InputMember, kind: Kind)
    requires m !in ms
    ensures |set n | n in ms + [m] && n.kind == kind| ==
            |set n | n in ms && n.kind == kind| + if m.kind == kind then 1 else 0
  {
    var before, after := set n | n in ms && n.kind == kind, set n | n in ms + [m] && n.kind == kind;
    assert after == if m.kind == kind then before + {m} else before;
  }

  lemma {:induction false} SumBytesOfConcat(ms: seq<InputMember>, ns: seq<InputMember>)
    ensures SumBytes(ms + ns) == SumBytes(ms) + SumBytes(ns)
    ensures |ns| == 1 ==> SumBytes(ns) == ns[0].fileBytes
    decreases |ns|
  {
    if ns == [] {
      assert ms + ns == ms;
    } else {
      SumBytesOfConcat(ms, ns[..|ns| - 1]);
      assert (ms + ns)[..|ms + ns| - 1] == ms + ns[..|ns| - 1];
    }
  }

  lemma CountsMean(ms: seq<InputMember>, counts: InputCounts)
    requires TextSorted(PathsOf(ms))
    ensures counts == CountsOf(ms) <==> CountedRight(ms, counts)
  {
    SortedMembersDiffer(ms);
    CountKindIsSize(ms, FileKind);
    CountKindIsSize(ms, DirectoryKind);
    CountKindIsSize(ms, SymlinkKind);
  }

  ghost predicate PortablePaths(s: Scope) {
    AllPortable(Elements(s.roots)) && AllPortable(s.excluded) && AllPortable(s.internal)
  }

  lemma ScopeHasPortablePaths(s: Scope)
    requires ScopeOk(s)
    ensures PortablePaths(s)
  {
    CanonicalArePortable(Elements(s.roots));
    CanonicalArePortable(s.excluded);
    CanonicalArePortable(s.internal);
  }

  lemma BelongsMeans(s: Scope, ms: seq<InputMember>, p: Path)
    requires PortablePaths(s) && TextSorted(PathsOf(ms)) && p != []
    ensures Reached(s, p) <==> OneRoot(Elements(s.roots), p) && s.excluded * Ancestors(p) == {}
    ensures Housed(s, ms, p) <==> InDirectory(Elements(s.roots), KindsOf(ms), p)
    ensures Unbarred(s, p) <==> !Internal(s.mandatory, s.internal, p)
  {
    assert forall t :: t in s.roots ==> t in Elements(s.roots);
    RootsAtOrAbove(s.roots, p);
    NothingAbove(s.excluded, p);
    NothingAbove(s.internal, p);
    DirectoryListed(ms, p[..|p| - 1]);
  }

  lemma RootsAreListed(s: Scope, ms: seq<InputMember>)
    requires TextSorted(PathsOf(ms))
    ensures Elements(s.roots) <= KindsOf(ms).Keys <==> RootsListed(s, ms)
  {
    SortedMembersDiffer(ms);
    KindsOfMembers(ms);
    forall t | t in KindsOf(ms) ensures exists m :: m in ms && m.path == t {
      assert t in PathsOf(ms);
      var i :| 0 <= i < |ms| && PathsOf(ms)[i] == t;
      assert ms[i] in ms;
    }
    forall m | m in ms ensures m.path in KindsOf(ms).Keys {
    }
    assert forall t :: t in s.roots <==> t in Elements(s.roots);
  }

  lemma BelongingMeans(s: Scope, ms: seq<InputMember>)
    requires PortablePaths(s) && AllMembersOk(ms) && TextSorted(PathsOf(ms))
    ensures forall m :: m in ms ==> m.path != []
    ensures AllInScope(Elements(s.roots), s.excluded, ms) <==> forall m :: m in ms ==> Reached(s, m.path)
    ensures AllInDirectories(Elements(s.roots), KindsOf(ms), ms) <==> forall m :: m in ms ==> Housed(s, ms, m.path)
    ensures NoneInternal(s.mandatory, s.internal, ms) <==> forall m :: m in ms ==> Unbarred(s, m.path)
  {
    forall m | m in ms
      ensures m.path != []
      ensures Reached(s, m.path) <==> OneRoot(Elements(s.roots), m.path) && s.excluded * Ancestors(m.path) == {}
      ensures Housed(s, ms, m.path) <==> InDirectory(Elements(s.roots), KindsOf(ms), m.path)
      ensures Unbarred(s, m.path) <==> !Internal(s.mandatory, s.internal, m.path)
    {
      CanonicalIsPortable(m.path);
      BelongsMeans(s, ms, m.path);
    }
  }

  lemma NoRejection(s: Scope, ms: seq<InputMember>, counts: InputCounts, bound: nat)
    ensures Validate(s, ms, counts, bound) == None <==>
            && ScopeOk(s) && NamesOk(s.ignored) && |ms| <= bound && AllMembersOk(ms) && TextSorted(PathsOf(ms))
            && Elements(s.roots) <= KindsOf(ms).Keys && Collapsed(s.excluded)
            && AllInScope(Elements(s.roots), s.excluded, ms) && AllInDirectories(Elements(s.roots), KindsOf(ms), ms)
            && NoneInternal(s.mandatory, s.internal, ms) && counts == CountsOf(ms)
  {
  }

  lemma MembersAscend(ms: seq<InputMember>)
    ensures TextSorted(PathsOf(ms)) <==> Ascending(ms)
  {
    var paths := PathsOf(ms);
    ByteOrderOfPaths(paths);
    forall i, j | 0 <= i < j < |ms| && TextSorted(paths)
      ensures Before(JoinPath(ms[i].path), JoinPath(ms[j].path))
    {
      assert Before(JoinPath(paths[i]), JoinPath(paths[j]));
    }
  }

  /** The checks a peer runs accept exactly the coherent reports. */
  lemma AcceptedIsCoherent(s: Scope, ms: seq<InputMember>, counts: InputCounts, bound: nat)
    ensures Validate(s, ms, counts, bound) == None <==> Coherent(s, ms, counts, bound)
  {
    NoRejection(s, ms, counts, bound);
    ScopeIsPortable(s);
    MembersAreWellFormed(ms);
    MembersAscend(ms);
    if PortableScope(s) && AllMembersOk(ms) && TextSorted(PathsOf(ms)) {
      ScopeHasPortablePaths(s);
      RootsAreListed(s, ms);
      CollapsedMeans(s);
      CountsMean(ms, counts);
      BelongingMeans(s, ms);
    }
  }

  /** And a rejection names what is wrong. */
  lemma RejectionIsTrue(s: Scope, ms: seq<InputMember>, counts: InputCounts, bound: nat)
    ensures match Validate(s, ms, counts, bound)
      case None => true
      case Some(BadScope) => !PortableScope(s)
      case Some(TooManyMembers) => |ms| > bound
      case Some(BadMember) => !AllWellFormed(ms)
      case Some(Unordered) => !Ascending(ms)
      case Some(MissingRoot) => !RootsListed(s, ms)
      case Some(UncollapsedExclusions) => !ExclusionsApart(s)
      case Some(OutsideScope) => exists m :: m in ms && !Reached(s, m.path)
      case Some(MissingDirectory) => exists m :: m in ms && m.path != [] && !Housed(s, ms, m.path)
      case Some(InternalEntry) => exists m :: m in ms && !Unbarred(s, m.path)
      case Some(WrongCounts) => !CountedRight(ms, counts)
  {
    match Validate(s, ms, counts, bound)
    case None =>
    case Some(BadScope) => ScopeIsPortable(s);
    case Some(TooManyMembers) =>
    case Some(BadMember) => MembersAreWellFormed(ms);
    case Some(Unordered) => MembersAscend(ms);
    case Some(MissingRoot) => RootsAreListed(s, ms);
    case Some(WrongCounts) => CountsMean(ms, counts);
    case Some(UncollapsedExclusions) =>
      ScopeHasPortablePaths(s);
      CollapsedMeans(s);
    case Some(_) =>
      ScopeHasPortablePaths(s);
      BelongingMeans(s, ms);
  }

  // ---------------------------------------------------------------- why captured members pass

  /** What a host filesystem guarantees of its names and links. */
  ghost predicate HostTree(fs: Tree) {
    && (forall p :: Lookup(fs, p).Some? ==> Plain(p))
    && (forall p :: Lookup(fs, p).Some? && Lookup(fs, p).value.Link? ==>
          Lookup(fs, p).value.target != [] && 0 !in Lookup(fs, p).value.target)
  }

  lemma AncestorIsPrefix(p: Path, q: Path)
    ensures q in Ancestors(p) <==> q != [] && q <= p
  {
    if q != [] && q <= p {
      assert q == p[..|q|];
    }
  }

  lemma SelectedHasRoot(r: Rules, excluded: set<Path>, fs: Tree, paths: seq<Path>, p: Path)
    requires p in Selected(r, excluded, fs, paths)
    ensures exists t :: t in paths && p in Under(r, excluded, fs, t) && t <= p
  {
    var t :| t in Elements(paths) && p in Under(r, excluded, fs, t);
    UnderIsExact(r, excluded, fs, t, p);
  }

  /** Exactly one selected root lies at or above a selected entry. */
  lemma SelectedHasOneRoot(r: Rules, excluded: set<Path>, fs: Tree, paths: seq<Path>, p: Path)
    requires ResolvedManifest(excluded, fs, paths) && Rooted(fs, paths) && p in Selected(r, excluded, fs, paths)
    ensures OneRoot(Elements(paths), p)
  {
    SelectedHasRoot(r, excluded, fs, paths, p);
    var t :| t in paths && p in Under(r, excluded, fs, t) && t <= p;
    RootedIsAntichain(excluded, fs, paths);
    var common := Elements(paths) * Ancestors(p);
    forall q ensures q in common <==> q == t {
      AncestorIsPrefix(p, q);
      if q in paths && q <= p {
        TwoPrefixes(p, q, t);
        assert q in Elements(paths) && t in Elements(paths);
      }
    }
    assert common == {t};
  }

  lemma TwoPrefixes(p: Path, q: Path, t: Path)
    requires q <= p && t <= p
    ensures q <= t || t <= q
  {
    if |q| <= |t| {
      assert q == t[..|q|];
    } else {
      assert t == q[..|t|];
    }
  }

  /** A selected entry is neither excluded by the request nor by policy. */
  lemma SelectedIsAllowed(r: Rules, excluded: set<Path>, fs: Tree, paths: seq<Path>, p: Path)
    requires ResolvedManifest(excluded, fs, paths) && p in Selected(r, excluded, fs, paths)
    requires forall t :: t in paths ==> !Excluded(r, t)
    ensures !Excludes(excluded, p) && !Excluded(r, p)
  {
    SelectedHasRoot(r, excluded, fs, paths, p);
    var t :| t in paths && p in Under(r, excluded, fs, t) && t <= p;
    UnderIsExact(r, excluded, fs, t, p);
    if |t| < |p| {
      assert Listed(r, excluded, p[..|p|]) && p[..|p|] == p;
    } else {
      assert p == t;
    }
  }

  /** The parent of an entry below a root is itself below the root, and a directory. */
  lemma UnderParent(r: Rules, excluded: set<Path>, fs: Tree, root: Path, parent: Path, n: Name)
    requires parent + [n] in Under(r, excluded, fs, root) && root != parent + [n]
    ensures parent in Under(r, excluded, fs, root) && IsDir(fs, parent)
  {
    var p := parent + [n];
    UnderIsExact(r, excluded, fs, root, p);
    UnderIsExact(r, excluded, fs, root, parent);
    LookupThrough(fs, parent, [n]);
    assert root <= parent by { assert root == p[..|root|] && |root| < |p|; }
    forall i | |root| < i <= |parent| ensures Listed(r, excluded, parent[..i]) {
      assert parent[..i] == p[..i];
    }
  }

  /** A selected entry that is no root lies in a selected directory. */
  lemma SelectedParent(r: Rules, excluded: set<Path>, fs: Tree, paths: seq<Path>, p: Path)
    requires p in Selected(r, excluded, fs, paths) && p !in paths
    ensures p != [] && p[..|p| - 1] in Selected(r, excluded, fs, paths) && IsDir(fs, p[..|p| - 1])
  {
    SelectedHasRoot(r, excluded, fs, paths, p);
    var t :| t in paths && p in Under(r, excluded, fs, t) && t <= p;
    assert p == p[..|p| - 1] + [p[|p| - 1]];
    UnderParent(r, excluded, fs, t, p[..|p| - 1], p[|p| - 1]);
    assert t in Elements(paths);
  }

  lemma {:induction false} KindsOfMembers(ms: seq<InputMember>)
    requires forall m, n :: m in ms && n in ms && m.path == n.path ==> m == n
    ensures KindsOf(ms).Keys == Elements(PathsOf(ms))
    ensures forall m :: m in ms ==> m.path in KindsOf(ms) && KindsOf(ms)[m.path] == m.kind
    decreases |ms|
  {
    if ms != [] {
      var front, last := ms[..|ms| - 1], ms[|ms| - 1];
      KindsOfMembers(front);
      assert PathsOf(ms) == PathsOf(front) + [last.path];
      ElementsMore(PathsOf(front), last.path);
      assert ms == front + [last];
    }
  }

  /** The count of a walk, entry by entry, is the count of its members. */
  lemma {:induction false} CountsAgree(at: Sampler, ms: seq<InputMember>)
    requires TextSorted(PathsOf(ms))
    requires forall m :: m in ms ==>
            at(m.path).Some? && at(m.path).value.kind == m.kind && FileSize(at, m.path) == m.fileBytes
    ensures Tally(at, Elements(PathsOf(ms))) == CountsOf(ms)
    decreases |ms|
  {
    if ms == [] {
      assert Elements(PathsOf(ms)) == {};
      assert OfKind(at, {}, FileKind) == {} && OfKind(at, {}, DirectoryKind) == {} && OfKind(at, {}, SymlinkKind) == {};
    } else {
      var front, last := ms[..|ms| - 1], ms[|ms| - 1];
      assert PathsOf(ms) == PathsOf(front) + [last.path];
      SortedFront(PathsOf(front), last.path);
      CountsAgree(at, front);
      TallyMore(at, Elements(PathsOf(front)), last.path);
    }
  }

  // ---------------------------------------------------------------- the theorem

  lemma MemberFacts(r: Rules, excluded: set<Path>, fs: Tree, p: Path, m: InputMember)
    requires HostTree(fs) && !Excludes(excluded, p) && MemberAt(r, Pruned(fs, excluded, []), p) == Some(m)
    ensures m.path == p && Plain(p) && DetailsOk(m) && (m.kind == DirectoryKind <==> IsDir(fs, p))
    ensures Sampled(fs)(p).Some? && Sampled(fs)(p).value.kind == m.kind && FileSize(Sampled(fs), p) == m.fileBytes
  {
    PrunedEntry(fs, excluded, p);
  }

  lemma NoExcludedRoots(r: Rules, excluded: set<Path>, fs: Tree, paths: seq<Path>, bound: nat)
    requires ResolvedManifest(excluded, fs, paths) && Observable(r, excluded, fs, paths, bound)
    ensures forall t :: t in paths ==> !Excluded(r, t)
  {
    RootedIsAntichain(excluded, fs, paths);
    ExcludedTerminalsFail(r, Pruned(fs, excluded, []), paths);
    assert forall t :: t in paths ==> t in Elements(paths);
  }

  lemma ExcludedTerminalsFail(r: Rules, gs: Tree, paths: seq<Path>)
    requires forall p :: p in paths ==> p != []
    ensures forall t :: t in Terminals(ManifestShape(paths)) && Excluded(r, t) ==>
            ColdRoot(r, gs, ManifestShape(paths)).None?
  {
    forall t | t in Terminals(ManifestShape(paths)) && Excluded(r, t)
      ensures ColdRoot(r, gs, ManifestShape(paths)).None?
    {
      MissingTerminalFails(r, gs, ManifestShape(paths), t);
    }
  }

  lemma TopmostIsCollapsed(excluded: set<Path>)
    requires Topmost(excluded) == excluded
    ensures Collapsed(excluded)
  {
    forall p | p in excluded ensures excluded * (Ancestors(p) - {p}) == {} {
      forall q ensures q !in excluded * (Ancestors(p) - {p}) {
        AncestorIsPrefix(p, q);
      }
    }
  }

  /** What the scope checks ask of one member. */
  ghost predicate MemberInScope(
    roots: set<Path>, excluded: set<Path>, mandatory: set<Name>, internal: set<Path>, kinds: map<Path, Kind>, p: Path)
  {
    && OneRoot(roots, p) && excluded * Ancestors(p) == {}
    && InDirectory(roots, kinds, p) && !Internal(mandatory, internal, p)
  }

  lemma SelectedInScope(r: Rules, excluded: set<Path>, fs: Tree, paths: seq<Path>, bound: nat, kinds: map<Path, Kind>,
      p: Path)
    requires ResolvedManifest(excluded, fs, paths) && Observable(r, excluded, fs, paths, bound)
            && p in Selected(r, excluded, fs, paths)
    requires forall q :: q in Selected(r, excluded, fs, paths) && IsDir(fs, q) ==>
            q in kinds && kinds[q] == DirectoryKind
    ensures MemberInScope(Elements(paths), excluded, r.mandatory, r.excluded, kinds, p)
  {
    NoExcludedRoots(r, excluded, fs, paths, bound);
    SelectedHasOneRoot(r, excluded, fs, paths, p);
    SelectedIsAllowed(r, excluded, fs, paths, p);
    if p !in paths {
      SelectedParent(r, excluded, fs, paths, p);
    }
    AllowedHasNoBarredAncestor(r, excluded, p);
  }

  lemma AllowedHasNoBarredAncestor(r: Rules, excluded: set<Path>, p: Path)
    requires !Excludes(excluded, p) && !Excluded(r, p)
    ensures excluded * Ancestors(p) == {} && !Internal(r.mandatory, r.excluded, p)
  {
    forall q ensures q !in excluded * Ancestors(p) && q !in r.excluded * Ancestors(p) {
      AncestorIsPrefix(p, q);
    }
  }

  /** What the checks and the counts ask of one member by itself. */
  ghost predicate MemberOk(fs: Tree, m: InputMember) {
    && DetailsOk(m) && (m.kind == DirectoryKind <==> IsDir(fs, m.path))
    && Sampled(fs)(m.path).Some? && Sampled(fs)(m.path).value.kind == m.kind
        && FileSize(Sampled(fs), m.path) == m.fileBytes
  }

  lemma CapturedMembersOk(
    r: Rules, excluded: set<Path>, fs: Tree, paths: seq<Path>, bound: nat, members: map<Path, InputMember>,
        ms: seq<InputMember>)
    requires ResolvedManifest(excluded, fs, paths) && HostTree(fs) && Observable(r, excluded, fs, paths, bound)
    requires members.Keys == Selected(r, excluded, fs, paths) && ListsMembers(members, ms)
    requires forall p :: p in members ==> Recorded(r, Pruned(fs, excluded, []))(p) == Some(members[p])
    ensures forall m :: m in ms ==> MemberOk(fs, m)
  {
    NoExcludedRoots(r, excluded, fs, paths, bound);
    forall m | m in ms ensures MemberOk(fs, m) {
      SelectedIsAllowed(r, excluded, fs, paths, m.path);
      assert Recorded(r, Pruned(fs, excluded, []))(m.path) == Some(m);
      MemberFacts(r, excluded, fs, m.path, m);
    }
  }

  lemma CapturedMembersInScope(
    r: Rules, excluded: set<Path>, fs: Tree, paths: seq<Path>, bound: nat, members: map<Path, InputMember>,
        ms: seq<InputMember>)
    requires ResolvedManifest(excluded, fs, paths) && Observable(r, excluded, fs, paths, bound)
    requires members.Keys == Selected(r, excluded, fs, paths) && ListsMembers(members, ms) && forall m :: m in ms ==>
            MemberOk(fs, m)
    ensures forall m :: m in ms ==>
            MemberInScope(Elements(paths), excluded, r.mandatory, r.excluded, KindsOf(ms), m.path)
  {
    var kinds := KindsOf(ms);
    forall q | q in members && IsDir(fs, q) ensures q in kinds && kinds[q] == DirectoryKind {
      KnownDirectory(fs, members, ms, q);
    }
    forall m | m in ms ensures MemberInScope(Elements(paths), excluded, r.mandatory, r.excluded, kinds, m.path) {
      SelectedInScope(r, excluded, fs, paths, bound, kinds, m.path);
    }
  }

  lemma KnownDirectory(fs: Tree, members: map<Path, InputMember>, ms: seq<InputMember>, q: Path)
    requires ListsMembers(members, ms) && (forall m :: m in ms ==> MemberOk(fs, m)) && q in members && IsDir(fs, q)
    ensures q in KindsOf(ms) && KindsOf(ms)[q] == DirectoryKind
  {
    KindsOfMembers(ms);
    MemberOfPath(members, ms, q);
  }

  lemma RootsAreMembers(r: Rules, excluded: set<Path>, fs: Tree, paths: seq<Path>, members: map<Path, InputMember>,
      ms: seq<InputMember>)
    requires Rooted(fs, paths) && members.Keys == Selected(r, excluded, fs, paths) && ListsMembers(members, ms)
    ensures Elements(paths) <= KindsOf(ms).Keys
  {
    KindsOfMembers(ms);
    SelectedRoots(r, excluded, fs, paths);
  }

  lemma ScopePasses(
    roots: set<Path>, excluded: set<Path>, mandatory: set<Name>, internal: set<Path>, kinds: map<Path, Kind>,
        ms: seq<InputMember>)
    requires forall m :: m in ms ==> MemberInScope(roots, excluded, mandatory, internal, kinds, m.path)
    ensures AllInScope(roots, excluded, ms) && AllInDirectories(roots, kinds, ms)
            && NoneInternal(mandatory, internal, ms)
  {
    forall m | m in ms
      ensures OneRoot(roots, m.path) && excluded * Ancestors(m.path) == {} && InDirectory(roots, kinds, m.path)
      ensures !Internal(mandatory, internal, m.path)
    {
      assert MemberInScope(roots, excluded, mandatory, internal, kinds, m.path);
    }
  }

  /** The members are no more than the bound, and the running counts are theirs. */
  lemma CapturedCounts(
    fs: Tree, gs: Tree, r: Rules, all: set<Path>, bound: nat,
    states: map<Path, EntryState>, members: map<Path, InputMember>, counts: InputCounts, ms: seq<InputMember>)
    requires Inventory(Sampled(fs), Recorded(r, gs), all, bound, states, members, counts) && members.Keys == states.Keys
    requires ListsMembers(members, ms) && forall m :: m in ms ==> MemberOk(fs, m)
    ensures counts == CountsOf(ms) && |ms| <= bound
  {
    CountsAgree(Sampled(fs), ms);
    SortedSize(PathsOf(ms));
    assert |ms| == |PathsOf(ms)| && |states.Keys| == |states|;
  }

  /** Members whose paths are the selected ones are canonical exactly if these are. */
  lemma MembersCanonical(selected: set<Path>, members: map<Path, InputMember>, ms: seq<InputMember>)
    requires members.Keys == selected && ListsMembers(members, ms) && forall m :: m in ms ==> DetailsOk(m)
    ensures AllMembersOk(ms) <==> AllCanonical(selected)
  {
    if AllMembersOk(ms) {
      forall p | p in selected ensures Canonical(p) {
        MemberOfPath(members, ms, p);
      }
    }
  }

  /**
   Whatever a successful observation captures, with the counts it kept along the way, passes
   every check a peer makes, for collapsed exclusions and any bound the capture respected, exactly
   if every path involved survives its own text; else it is refused for just that.
   */
  lemma CapturedIsAccepted(
    r: Rules, excluded: set<Path>, fs: Tree, paths: seq<Path>, bound: nat,
    states: map<Path, EntryState>, members: map<Path, InputMember>, counts: InputCounts, ms: seq<InputMember>)
    requires ResolvedManifest(excluded, fs, paths) && Topmost(excluded) == excluded && HostTree(fs)
    requires Observable(r, excluded, fs, paths, bound)
    requires Inventory(Sampled(fs), Recorded(r, Pruned(fs, excluded, [])), Selected(r, excluded, fs, paths), bound,
            states, members, counts)
    requires members.Keys == states.Keys == Selected(r, excluded, fs, paths) && ListsMembers(members, ms)
    ensures Validate(ScopeOf(r, excluded, paths), ms, CountsOf(ms), bound) ==
              if !ScopeOk(ScopeOf(r, excluded, paths)) then Some(BadScope)
              else if !AllCanonical(Selected(r, excluded, fs, paths)) then Some(BadMember)
              else if !NamesOk(r.walkIgnore) then Some(BadScope)
              else None
    ensures counts == CountsOf(ms)
  {
    CapturedMembersOk(r, excluded, fs, paths, bound, members, ms);
    MembersCanonical(Selected(r, excluded, fs, paths), members, ms);
    CapturedMembersInScope(r, excluded, fs, paths, bound, members, ms);
    CapturedCounts(fs, Pruned(fs, excluded, []), r, Selected(r, excluded, fs, paths), bound, states, members, counts,
        ms);
    RootsAreMembers(r, excluded, fs, paths, members, ms);
    TopmostIsCollapsed(excluded);
    ScopePasses(Elements(paths), excluded, r.mandatory, r.excluded, KindsOf(ms), ms);
  }

  lemma MemberOfPath(members: map<Path, InputMember>, ms: seq<InputMember>, p: Path)
    requires ListsMembers(members, ms) && p in members
    ensures exists m :: m in ms && m.path == p
  {
    assert p in PathsOf(ms);
    var i :| 0 <= i < |ms| && PathsOf(ms)[i] == p;
    assert ms[i] in ms;
  }

  /** Captured members know their own path, and it is a plain one. */
  lemma CapturedPaths(r: Rules, excluded: set<Path>, fs: Tree, paths: seq<Path>, bound: nat,
      members: map<Path, InputMember>)
    requires ResolvedManifest(excluded, fs, paths) && HostTree(fs) && Observable(r, excluded, fs, paths, bound)
    requires members.Keys == Selected(r, excluded, fs, paths)
    requires forall p :: p in members ==> Recorded(r, Pruned(fs, excluded, []))(p) == Some(members[p])
    ensures forall p :: p in members ==> Plain(p) && members[p].path == p
  {
    NoExcludedRoots(r, excluded, fs, paths, bound);
    forall p | p in members ensures Plain(p) && members[p].path == p {
      SelectedIsAllowed(r, excluded, fs, paths, p);
      MemberFacts(r, excluded, fs, p, members[p]);
    }
  }

  /** A whole observation, from the request to the report a peer accepts. */
  method CaptureAndReport(fs: Tree, excluded: set<Path>, bound: nat, r: Rules, paths: seq<Path>)
    returns (res: Result<Digest, CaptureError>, ms: seq<InputMember>, counts: InputCounts)
    requires ResolvedManifest(excluded, fs, paths) && Topmost(excluded) == excluded && HostTree(fs)
    ensures res.Ok? <==> Observable(r, excluded, fs, paths, bound)
    ensures res.Ok? ==> ColdRoot(r, Pruned(fs, excluded, []), ManifestShape(paths)) == Some(res.value)
    ensures res.Ok? ==> TextSorted(PathsOf(ms)) && Elements(PathsOf(ms)) == Selected(r, excluded, fs, paths)
    ensures res.Ok? ==> forall m :: m in ms ==> MemberAt(r, Pruned(fs, excluded, []), m.path) == Some(m)
    ensures res.Ok? && ScopeOk(ScopeOf(r, excluded, paths)) && NamesOk(r.walkIgnore) ==>
              Validate(ScopeOf(r, excluded, paths), ms, counts, bound) ==
                if AllCanonical(Selected(r, excluded, fs, paths)) then None else Some(BadMember)
  {
    var cap;
    res, cap := ObserveInputs(fs, excluded, bound, r, paths);
    ms, counts := [], InputCounts(0, 0, 0, 0);
    if res.Ok? {
      CapturedPaths(r, excluded, fs, paths, bound, cap.members);
      ms, counts := Results(cap);
      CapturedIsAccepted(r, excluded, fs, paths, bound, cap.states, cap.members, cap.counts, ms);
      forall m | m in ms ensures MemberAt(r, Pruned(fs, excluded, []), m.path) == Some(m) {
        assert Recorded(r, Pruned(fs, excluded, []))(m.path) == Some(cap.members[m.path]);
      }
    }
  }
}
