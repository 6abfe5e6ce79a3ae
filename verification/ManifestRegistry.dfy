/** The daemon's registry of manifests: chunked registration, reference counts and four limits. */
module ManifestRegistries {
  import opened Base
  import opened Encoding
  import opened PathText
  import opened Normalization
  import opened Manifests

  const MAX_PENDING_MANIFESTS: nat := 8
  const MAX_MANIFEST_PATHS: nat := 2000000
  const MAX_TOTAL_PATHS: nat := 4000000
  const MAX_MANIFESTS: nat := 1024

  type Token = Bytes
  type Handle = Hash32

  /** `normalize_relative_path(text, allow_root=False)`; `None` where it raises ValueError. */
  type Normalizer = Bytes -> Option<Path>

  ghost predicate NormalizesToPlain(normalize: Normalizer) {
    forall t: Bytes :: normalize(t).Some? ==> normalize(t).value != [] && Plain(normalize(t).value)
  }

  /** The normalization of this engine is such a one, and keeps exactly the portable paths. */
  lemma EngineNormalizer()
    ensures NormalizesToPlain(t => NormalizeInput(t))
    ensures forall p: Path :: NormalizeInput(JoinPath(p)) == Some(p) <==> p != [] && Portable(p)
  {
    forall t: Bytes | NormalizeInput(t).Some? ensures Plain(NormalizeInput(t).value) {
      NormalizedNames(t);
    }
    forall p: Path ensures NormalizeInput(JoinPath(p)) == Some(p) <==> p != [] && Portable(p) {
      NormalizeKeepsPortable(p);
    }
  }

  /** What `InputManifest` accepts: canonical texts, of lengths a field can hold. */
  predicate Canonical(normalize: Normalizer, paths: seq<Path>) {
    forall p :: p in paths ==> normalize(JoinPath(p)) == Some(p) && Fits8(|JoinPath(p)|)
  }

  datatype Registered = Registered(paths: seq<Path>, references: nat)

  datatype RegistryError = TooManyPending | UnknownToken | PathLimit | BadPath | HandleLimit | PathBudget

  datatype Committed = Committed(handle: Handle, paths: nat, references: nat)

  datatype Dropped = Dropped(deleted: bool, references: nat)

  // ---------------------------------------------------------------- sorting

  /** Text order has only one way to list a set of paths. */
  lemma SortedPathsUnique(a: seq<Path>, b: seq<Path>)
    requires TextSorted(a) && TextSorted(b) && Elements(a) == Elements(b) && forall p :: p in a ==> Plain(p)
    ensures a == b
  {
    var s, t := seq(|a|, i requires 0 <= i < |a| => JoinPath(a[i])),
        seq(|b|, i requires 0 <= i < |b| => JoinPath(b[i]));
    assert forall p :: p in a <==> p in Elements(a);
    assert forall p :: p in b <==> p in Elements(b);
    forall x ensures x in s <==> x in t {
      if x in s {
        var i :| 0 <= i < |a| && s[i] == x;
        assert a[i] in b;
        var j :| 0 <= j < |b| && b[j] == a[i];
        assert t[j] == x;
      }
      if x in t {
        var i :| 0 <= i < |b| && t[i] == x;
        assert b[i] in a;
        var j :| 0 <= j < |a| && a[j] == b[i];
        assert s[j] == x;
      }
    }
    StrictlySortedUnique(s, t);
    forall i | 0 <= i < |a| ensures a[i] == b[i] {
      assert a[i] in a && b[i] in b && s[i] == t[i];
      JoinPathInjective(a[i], b[i]);
    }
  }

  // ---------------------------------------------------------------- accounting

  ghost function TotalPaths(m: map<Handle, Registered>): nat {
    if m == map[] then 0
    else
      var h :| h in m;
      |m[h].paths| + TotalPaths(m - {h})
  }

  lemma {:induction false} TotalWithout(m: map<Handle, Registered>, h: Handle)
    requires h in m
    ensures TotalPaths(m) == |m[h].paths| + TotalPaths(m - {h})
    decreases |m|
  {
    var g :| g in m && TotalPaths(m) == |m[g].paths| + TotalPaths(m - {g});
    if g != h {
      TotalWithout(m - {g}, h);
      TotalWithout(m - {h}, g);
      assert (m - {g}) - {h} == (m - {h}) - {g};
    }
  }

  lemma TotalWith(m: map<Handle, Registered>, h: Handle, e: Registered)
    ensures TotalPaths(m[h := e]) == |e.paths| + TotalPaths(m - {h})
  {
    TotalWithout(m[h := e], h);
    assert m[h := e] - {h} == m - {h};
  }

  /** What has happened to handles so far. */
  datatype Event = Commit(handle: Handle) | Drop(handle: Handle)

  function Net(history: seq<Event>, h: Handle): int {
    if history == [] then 0
    else Net(history[..|history| - 1], h) + match history[|history| - 1] case Commit(g) => (if g == h then 1 else
        0) case Drop(g) => (if g == h then -1 else 0)
  }

  lemma NetMore(history: seq<Event>, e: Event, h: Handle)
    ensures Net(history + [e], h) == Net(history, h) +
            match e case Commit(g) => (if g == h then 1 else 0) case Drop(g) => (if g == h then -1 else 0)
  {
    assert (history + [e])[..|history|] == history;
  }

  function References(m: map<Handle, Registered>, h: Handle): nat {
    if h in m then m[h].references else 0
  }

  /** A handle is the fingerprint of a manifest. */
  ghost predicate Names(sha: Sha256, normalize: Normalizer, h: Handle, paths: seq<Path>) {
    Fingerprint(sha, paths) == h && TextSorted(paths) && Canonical(normalize, paths)
  }

  /** Every live handle names its manifest and is referenced as often as it was committed and not dropped. */
  ghost predicate Accounted(sha: Sha256, normalize: Normalizer, m: map<Handle, Registered>, history: seq<Event>) {
    && (forall h :: h in m ==> m[h].references >= 1 && Names(sha, normalize, h, m[h].paths))
    && (forall h :: Net(history, h) == References(m, h))
  }

  ghost predicate WithinLimits(pending: map<Token, seq<Path>>, m: map<Handle, Registered>) {
    && |pending| <= MAX_PENDING_MANIFESTS && |m| <= MAX_MANIFESTS && TotalPaths(m) <= MAX_TOTAL_PATHS
    && (forall t :: t in pending ==>
          |pending[t]| <= MAX_MANIFEST_PATHS && forall p :: p in pending[t] ==> p != [] && Plain(p))
  }

  lemma SpentToken(pending: map<Token, seq<Path>>, m: map<Handle, Registered>, token: Token)
    requires WithinLimits(pending, m) && token in pending
    ensures WithinLimits(pending - {token}, m)
    ensures forall p :: p in Elements(pending[token]) ==> Plain(p)
  {
    assert pending.Keys == (pending - {token}).Keys + {token};
    assert |pending| == |pending.Keys| && |pending - {token}| == |(pending - {token}).Keys|;
  }

  lemma AccountedMore(sha: Sha256, normalize: Normalizer, m: map<Handle, Registered>, history: seq<Event>, h: Handle,
      m': map<Handle, Registered>, e: Event)
    requires Accounted(sha, normalize, m, history) && e.handle == h
    requires forall g :: g != h ==> (g in m' <==> g in m) && (g in m ==> m'[g] == m[g])
    requires h in m' ==> m'[h].references >= 1 && Names(sha, normalize, h, m'[h].paths)
    requires References(m', h) == References(m, h) + if e.Commit? then 1 else -1
    ensures Accounted(sha, normalize, m', history + [e])
  {
    forall g ensures Net(history + [e], g) == References(m', g) {
      NetMore(history, e, g);
    }
  }

  /** One reference less; the last one takes the handle with it. */
  function Released(m: map<Handle, Registered>, h: Handle): map<Handle, Registered>
    requires h in m && m[h].references >= 1
  {
    if m[h].references > 1 then m[h := m[h].(references := m[h].references - 1)] else m - {h}
  }

  /** One reference more to a manifest, the first one bringing it in. */
  function Granted(m: map<Handle, Registered>, h: Handle, paths: seq<Path>): map<Handle, Registered> {
    m[h := if h in m then m[h].(references := m[h].references + 1) else Registered(paths, 1)]
  }

  lemma GrantedTotal(m: map<Handle, Registered>, h: Handle, paths: seq<Path>)
    ensures TotalPaths(Granted(m, h, paths)) == TotalPaths(m) + if h in m then 0 else |paths|
  {
    if h in m {
      TotalWithout(m, h);
      TotalWith(m, h, m[h].(references := m[h].references + 1));
    } else {
      assert m - {h} == m;
      TotalWith(m, h, Registered(paths, 1));
    }
  }

  lemma GrantedSize(m: map<Handle, Registered>, h: Handle, paths: seq<Path>)
    ensures |Granted(m, h, paths)| == |m| + if h in m then 0 else 1
  {
    assert Granted(m, h, paths).Keys == m.Keys + {h};
    assert |Granted(m, h, paths)| == |m.Keys + {h}|;
  }

  lemma GrantedIsAccounted(sha: Sha256, normalize: Normalizer, m: map<Handle, Registered>, history: seq<Event>,
      paths: seq<Path>)
    requires Accounted(sha, normalize, m, history) && TextSorted(paths) && Canonical(normalize, paths)
    ensures Accounted(sha, normalize, Granted(m, Fingerprint(sha, paths), paths),
            history + [Commit(Fingerprint(sha, paths))])
  {
    var h := Fingerprint(sha, paths);
    AccountedMore(sha, normalize, m, history, h, Granted(m, h, paths), Commit(h));
  }

  lemma ReleasedIsAccounted(sha: Sha256, normalize: Normalizer, pending: map<Token, seq<Path>>,
      m: map<Handle, Registered>, history: seq<Event>, h: Handle)
    requires h in m && Accounted(sha, normalize, m, history) && WithinLimits(pending, m)
    ensures Accounted(sha, normalize, Released(m, h), history + [Drop(h)]) && WithinLimits(pending, Released(m, h))
    ensures TotalPaths(Released(m, h)) == TotalPaths(m) - if m[h].references > 1 then 0 else |m[h].paths|
  {
    TotalWithout(m, h);
    if m[h].references > 1 {
      TotalWith(m, h, m[h].(references := m[h].references - 1));
    }
    AccountedMore(sha, normalize, m, history, h, Released(m, h), Drop(h));
  }

  lemma ArePlain(normalize: Normalizer, paths: seq<Path>)
    requires NormalizesToPlain(normalize) && Canonical(normalize, paths)
    ensures Fieldable(paths)
  {
  }

  /** Under a granted handle the registry holds this manifest, or a collision with another. */
  lemma GrantedIsThis(sha: Sha256, normalize: Normalizer, m: map<Handle, Registered>, paths: seq<Path>)
    requires NormalizesToPlain(normalize) && TextSorted(paths) && Canonical(normalize, paths)
    requires forall h :: h in m ==> Names(sha, normalize, h, m[h].paths)
    ensures var h := Fingerprint(sha, paths);
            var held := Granted(m, h, paths)[h].paths;
            held == paths || Collision(sha, FingerprintMessage(held), FingerprintMessage(paths))
  {
    var h := Fingerprint(sha, paths);
    if h in m {
      ArePlain(normalize, paths);
      ArePlain(normalize, m[h].paths);
      FingerprintIsBinding(sha, m[h].paths, paths);
    }
  }

  /** The reply to a commit describes the entry it leaves, or there is a collision with an older one. */
  ghost predicate Describes(sha: Sha256, m: map<Handle, Registered>, c: Committed, paths: seq<Path>) {
    && c.handle in m && m[c.handle].references == c.references
    && ((m[c.handle].paths == paths && c.paths == |m[c.handle].paths|)
        || Collision(sha, FingerprintMessage(m[c.handle].paths), FingerprintMessage(paths)))
  }

  lemma ReplyIsStored(sha: Sha256, normalize: Normalizer, m: map<Handle, Registered>, total: nat, paths: seq<Path>)
    requires NormalizesToPlain(normalize) && TextSorted(paths) && Canonical(normalize, paths)
    requires forall h :: h in m ==> Names(sha, normalize, h, m[h].paths)
    ensures var h := Fingerprint(sha, paths);
            var r := Verdict(true, m, total, h, |paths|);
            r.Ok? ==> Describes(sha, Granted(m, h, paths), r.value, paths)
  {
    GrantedIsThis(sha, normalize, m, paths);
  }

  // ---------------------------------------------------------------- the registry

  class ManifestRegistry {
    const sha: Sha256
    const normalize: Normalizer
    var pending: map<Token, seq<Path>>
    var registered: map<Handle, Registered>
    var totalPaths: nat
    ghost var history: seq<Event>

    ghost predicate Valid()
      reads this
    {
      && NormalizesToPlain(normalize) && WithinLimits(pending, registered)
      && totalPaths == TotalPaths(registered) && Accounted(sha, normalize, registered, history)
    }

    constructor (sha: Sha256, normalize: Normalizer)
      requires NormalizesToPlain(normalize)
      ensures Valid() && pending == map[] && registered == map[] && history == []
      ensures this.sha == sha && this.normalize == normalize
    {
      this.sha, this.normalize := sha, normalize;
      pending, registered, totalPaths, history := map[], map[], 0, [];
    }

    /** `_manifest_begin`, with the random token it drew. */
    method Begin(token: Token) returns (r: Result<Token, RegistryError>)
      requires Valid()
      modifies this`pending
      ensures Valid() && (r.Ok? <==> |old(pending)| < MAX_PENDING_MANIFESTS)
      ensures r.Ok? ==> r.value == token && pending == old(pending)[token := []]
      ensures r.Err? ==> r.error == TooManyPending && pending == old(pending)
    {
      if |pending| >= MAX_PENDING_MANIFESTS {
        return Err(TooManyPending);
      }
      pending := pending[token := []];
      return Ok(token);
    }

    /**
     `_manifest_append`: a chunk that would pass the limit discards the whole registration; one
     with a bad path keeps the paths before it.
     */
    method Append(token: Token, texts: seq<Bytes>) returns (r: Result<nat, RegistryError>)
      requires Valid()
      modifies this`pending
      ensures Valid()
      ensures token !in old(pending) ==> r == Err(UnknownToken) && pending == old(pending)
      ensures token in old(pending) && |old(pending)[token]| + |texts| > MAX_MANIFEST_PATHS ==>
              r == Err(PathLimit) && pending == old(pending) - {token}
      ensures token in old(pending) && |old(pending)[token]| + |texts| <= MAX_MANIFEST_PATHS ==>
        var (paths, good) := Normalized(normalize, texts);
        && pending == old(pending)[token := old(pending)[token] + paths]
        && r == if good then Ok(|pending[token]|) else Err(BadPath)
    {
      if token !in pending {
        return Err(UnknownToken);
      }
      if |pending[token]| + |texts| > MAX_MANIFEST_PATHS {
        pending := pending - {token};
        return Err(PathLimit);
      }
      var (paths, good) := Normalized(normalize, texts);
      NormalizedArePlain(normalize, texts);
      pending := pending[token := pending[token] + paths];
      var received: nat := |pending[token]|;
      return if good then Ok(received) else Err(BadPath);
    }

    /** `_manifest_commit`: the token is spent whether or not the registration succeeds. */
    method CommitManifest(token: Token) returns (r: Result<Committed, RegistryError>, ghost paths: seq<Path>)
      requires Valid()
      modifies this`pending, this`registered, this`totalPaths, this`history
      ensures Valid() && pending == old(pending) - {token}
      ensures token !in old(pending) ==> r == Err(UnknownToken)
      ensures token in old(pending) ==> TextSorted(paths) && Elements(paths) == Elements(old(pending)[token])
      ensures token in old(pending) ==>
              r == Verdict(Canonical(normalize, paths), old(registered), old(totalPaths), Fingerprint(sha, paths),
              |paths|)
      ensures r.Err? ==> registered == old(registered) && history == old(history)
      ensures r.Ok? ==> history == old(history) + [Commit(r.value.handle)]
      ensures r.Ok? ==> registered == Granted(old(registered), Fingerprint(sha, paths), paths)
      ensures r.Ok? ==> Describes(sha, registered, r.value, paths)
    {
      paths := [];
      if token !in pending {
        assert pending - {token} == pending;
        r := Err(UnknownToken);
      } else {
        SpentToken(pending, registered, token);
        var sorted := SortPaths(Elements(pending[token]));
        paths := sorted;
        pending := pending - {token};
        r := Register(sorted);
      }
    }

    /** Count one more reference to a manifest, or admit it if the limits allow. */
    method Register(paths: seq<Path>) returns (r: Result<Committed, RegistryError>)
      requires Valid() && TextSorted(paths)
      modifies this`registered, this`totalPaths, this`history
      ensures Valid() && r == Verdict(Canonical(normalize, paths), old(registered), old(totalPaths),
              Fingerprint(sha, paths), |paths|)
      ensures r.Err? ==> registered == old(registered) && history == old(history)
      ensures r.Ok? ==> history == old(history) + [Commit(r.value.handle)]
      ensures r.Ok? ==> registered == Granted(old(registered), Fingerprint(sha, paths), paths)
      ensures r.Ok? ==> Describes(sha, registered, r.value, paths)
    {
      var h := Fingerprint(sha, paths);
      r := Verdict(Canonical(normalize, paths), registered, totalPaths, h, |paths|);
      if r.Ok? {
        GrantedTotal(registered, h, paths);
        GrantedSize(registered, h, paths);
        GrantedIsAccounted(sha, normalize, registered, history, paths);
        ReplyIsStored(sha, normalize, registered, totalPaths, paths);
        totalPaths := if h in registered then totalPaths else totalPaths + |paths|;
        history := history + [Commit(h)];
        registered := Granted(registered, h, paths);
      }
    }

    /** `_manifest_drop_response`. */
    method DropManifest(h: Handle) returns (r: Dropped)
      requires Valid()
      modifies this`registered, this`totalPaths, this`history
      ensures Valid()
      ensures r == if References(old(registered), h) > 1 then Dropped(false,
              References(old(registered), h) - 1) else Dropped(h in old(registered), 0)
      ensures history == if h in old(registered) then old(history) + [Drop(h)] else old(history)
      ensures registered == if h in old(registered) then Released(old(registered), h) else old(registered)
      ensures r.references == References(registered, h) && (r.deleted <==> h in old(registered) && h !in registered)
    {
      if h !in registered {
        r := Dropped(false, 0);
      } else {
        r := Release(h);
      }
    }

    /** One reference less to a live handle. */
    method Release(h: Handle) returns (r: Dropped)
      requires Valid() && h in registered
      modifies this`registered, this`totalPaths, this`history
      ensures Valid() && history == old(history) + [Drop(h)] && registered == Released(old(registered), h)
      ensures var n := old(registered)[h].references; r == if n > 1 then Dropped(false, n - 1) else Dropped(true, 0)
    {
      var (paths, references) := (registered[h].paths, registered[h].references);
      ReleasedIsAccounted(sha, normalize, pending, registered, history, h);
      registered := Released(registered, h);
      history := history + [Drop(h)];
      if references > 1 {
        r := Dropped(false, references - 1);
      } else {
        totalPaths := totalPaths - |paths|;
        r := Dropped(true, 0);
      }
    }
  }

  /** The answer to a commit, from the limits it meets in order. */
  function Verdict(canonical: bool, registered: map<Handle, Registered>, total: nat, h: Handle,
      count: nat): Result<Committed, RegistryError> {
    if !canonical then Err(BadPath)
    else if h in registered then Ok(Committed(h, count, registered[h].references + 1))
    else if |registered| >= MAX_MANIFESTS then Err(HandleLimit)
    else if total + count > MAX_TOTAL_PATHS then Err(PathBudget)
    else Ok(Committed(h, count, 1))
  }

  /**
   A canonical manifest is refused exactly if holding it would break a limit: more handles than
   allowed or more paths in all. Another reference to one that is held breaks none.
   */
  lemma RefusedAtTheLimits(registered: map<Handle, Registered>, h: Handle, paths: seq<Path>)
    requires |registered| <= MAX_MANIFESTS && TotalPaths(registered) <= MAX_TOTAL_PATHS
    ensures Verdict(true, registered, TotalPaths(registered), h, |paths|).Ok? <==>
            |Granted(registered, h, paths)| <= MAX_MANIFESTS
            && TotalPaths(Granted(registered, h, paths)) <= MAX_TOTAL_PATHS
    ensures Verdict(true, registered, TotalPaths(registered), h, |paths|) == Err(HandleLimit) <==>
            |Granted(registered, h, paths)| > MAX_MANIFESTS
    ensures Verdict(true, registered, TotalPaths(registered), h, |paths|).Err? ==>
            Verdict(true, registered, TotalPaths(registered), h, |paths|).error in {HandleLimit, PathBudget}
    ensures Verdict(false, registered, TotalPaths(registered), h, |paths|) == Err(BadPath)
  {
    GrantedSize(registered, h, paths);
    GrantedTotal(registered, h, paths);
  }

  /** The paths normalized before the first bad one, and whether there was none. */
  function Normalized(normalize: Normalizer, texts: seq<Bytes>): (seq<Path>, bool) {
    if texts == [] then ([], true)
    else
      match normalize(texts[0])
      case None => ([], false)
      case Some(p) => var (rest, good) := Normalized(normalize, texts[1..]); ([p] + rest, good)
  }

  /** What is kept of a chunk: every path up to the first text that names none, which decides the reply. */
  lemma {:induction false} NormalizedUpToBad(normalize: Normalizer, texts: seq<Bytes>)
    ensures var (paths, good) := Normalized(normalize, texts);
            && |paths| <= |texts|
            && (forall i | 0 <= i < |paths| :: normalize(texts[i]) == Some(paths[i]))
            && (good <==> |paths| == |texts|)
            && (!good ==> normalize(texts[|paths|]).None?)
    decreases |texts|
  {
    if texts != [] {
      NormalizedUpToBad(normalize, texts[1..]);
    }
  }

  lemma {:induction false} NormalizedArePlain(normalize: Normalizer, texts: seq<Bytes>)
    requires NormalizesToPlain(normalize)
    ensures |Normalized(normalize, texts).0| <= |texts|
    ensures forall p :: p in Normalized(normalize, texts).0 ==> p != [] && Plain(p)
    decreases |texts|
  {
    if texts != [] {
      NormalizedArePlain(normalize, texts[1..]);
    }
  }
}
