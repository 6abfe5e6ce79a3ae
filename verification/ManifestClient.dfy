/** The client's half of a registration: the manifest's paths in chunks within two budgets. */
module ManifestClients {
  import opened Base
  import Encoding
  import opened PathText
  import opened Normalization
  import opened JsonText
  import opened Manifests
  import opened ManifestRegistries

  const CHUNK_OVERHEAD: nat := 128
  const MIN_CHUNK_BYTES: nat := 1024

  /** The largest request line the daemon reads, and what an append request adds around its paths. */
  const MAX_REQUEST: nat := 4194304
  const REQUEST_OVERHEAD: nat := 92

  datatype ClientError =
    | BadChunkSize | BadChunkBytes | Unencodable | PathTooLong | RequestTooLarge
    | Refused(error: RegistryError) | OtherManifest

  // ---------------------------------------------------------------- sizes

  /** The estimate for one path: its JSON string and a comma; `None` where encoding raises. */
  function Estimate(p: Path): Option<nat> {
    if ValidUtf8(JoinPath(p)) then Some(2 + Total(KeptSize, JoinPath(p)) + 1) else None
  }

  function Weigh(p: Path): nat {
    match Estimate(p) case Some(w) => w case None => 0
  }

  /** A path the client can put into some chunk. */
  predicate Fits(p: Path, maxBytes: int) {
    Estimate(p).Some? && Estimate(p).value + CHUNK_OVERHEAD <= maxBytes
  }

  function Weight(chunk: seq<Path>): nat {
    if chunk == [] then 0 else Weight(chunk[..|chunk| - 1]) + Weigh(chunk[|chunk| - 1])
  }

  /** The bytes the paths take in the request that is really sent: escaped, quoted, each with a comma. */
  function WireSize(chunk: seq<Path>): nat {
    if chunk == [] then 0
    else WireSize(chunk[..|chunk| - 1]) + 2 + Total(EscapedSize, JoinPath(chunk[|chunk| - 1])) + 1
  }

  /** The whole request line; the last path has no comma after it. */
  function RequestSize(chunk: seq<Path>): int {
    REQUEST_OVERHEAD + WireSize(chunk) - if chunk == [] then 0 else 1
  }

  /** The daemon reads a request line of at most four mebibytes. */
  predicate Readable(chunk: seq<Path>) {
    RequestSize(chunk) <= MAX_REQUEST
  }

  const COMMA: byte := 0x2C

  /** The quoted path strings of a request, given the characters of each path. */
  function Strings(texts: seq<seq<Scalar>>): Bytes {
    if texts == [] then []
    else
      Strings(texts[..|texts| - 1]) + (if |texts| == 1 then [] else [COMMA])
      + Quoted(Text(Escaped, texts[|texts| - 1]))
  }

  /** The line that is sent: compact JSON with sorted keys. */
  function AppendRequest(token: Token, texts: seq<seq<Scalar>>): Bytes {
    Encoding.Ascii("{\"op\":\"manifest_append\",\"paths\":[") + Strings(texts)
    + Encoding.Ascii("],\"protocol\":3,\"token\":\"") + token + Encoding.Ascii("\"}\n")
  }

  ghost predicate SpellOut(chunk: seq<Path>, texts: seq<seq<Scalar>>) {
    |texts| == |chunk| && forall i | 0 <= i < |chunk| :: JoinPath(chunk[i]) == Utf8Text(texts[i])
  }

  lemma {:induction false} StringsSize(chunk: seq<Path>, texts: seq<seq<Scalar>>)
    requires SpellOut(chunk, texts)
    ensures |Strings(texts)| == WireSize(chunk) - if chunk == [] then 0 else 1
    decreases |chunk|
  {
    if chunk != [] {
      StringsSize(chunk[..|chunk| - 1], texts[..|texts| - 1]);
      SizesAreLengths(texts[|texts| - 1]);
    }
  }

  /** The sizes above are those of the real texts: of one path with its comma, and of the whole request line. */
  lemma SizesAreReal(token: Token, chunk: seq<Path>, texts: seq<seq<Scalar>>)
    requires SpellOut(chunk, texts) && |token| == 32
    ensures RequestSize(chunk) == |AppendRequest(token, texts)|
    ensures Readable(chunk) <==> |AppendRequest(token, texts)| <= 4 * 1024 * 1024
    ensures forall i | 0 <= i < |chunk| :: Estimate(chunk[i]) == Some(|Quoted(Text(Kept, texts[i])) + [COMMA]|)
  {
    StringsSize(chunk, texts);
    forall i | 0 <= i < |chunk| ensures Estimate(chunk[i]) == Some(|Quoted(Text(Kept, texts[i])) + [COMMA]|) {
      SizesAreLengths(texts[i]);
      Utf8TextIsValid(texts[i]);
    }
  }

  lemma {:induction false} WireGrowth(chunk: seq<Path>)
    requires forall p :: p in chunk ==> Estimate(p).Some?
    ensures WireSize(chunk) <= 6 * Weight(chunk)
    decreases |chunk|
  {
    if chunk != [] {
      var front, last := chunk[..|chunk| - 1], chunk[|chunk| - 1];
      assert last in chunk && forall p :: p in front ==> p in chunk;
      WireGrowth(front);
      EscapedGrowth(JoinPath(last));
    }
  }

  // ---------------------------------------------------------------- chunks

  function Concat(chunks: seq<seq<Path>>): seq<Path> {
    if chunks == [] then [] else Concat(chunks[..|chunks| - 1]) + chunks[|chunks| - 1]
  }

  /** A chunk worth sending: not empty, within the item limit and the byte budget. */
  predicate Sendable(chunkSize: int, maxBytes: int, chunk: seq<Path>) {
    0 < |chunk| <= chunkSize && CHUNK_OVERHEAD + Weight(chunk) <= maxBytes
  }

  /** The gathered chunk is done: the next path would not fit in it. */
  predicate Full(paths: seq<Path>, start: nat, i: nat, chunkSize: int, maxBytes: int)
    requires start <= i < |paths|
  {
    i > start && (i - start >= chunkSize || CHUNK_OVERHEAD + Weight(paths[start..i]) + Weigh(paths[i]) > maxBytes)
  }

  /** The chunks that remain when those before `start` are sent and the one from `start` to `i` is being gathered. */
  function ChunksFrom(paths: seq<Path>, start: nat, i: nat, chunkSize: int, maxBytes: int): seq<seq<Path>>
    requires start <= i <= |paths|
    decreases |paths| - i
  {
    if i == |paths| then if start < i then [paths[start..i]] else []
    else if Full(paths, start, i, chunkSize, maxBytes) then
      [paths[start..i]] + ChunksFrom(paths, i, i + 1, chunkSize, maxBytes)
    else ChunksFrom(paths, start, i + 1, chunkSize, maxBytes)
  }

  /** How a manifest is cut: as much into each chunk as both budgets allow. */
  function Chunks(paths: seq<Path>, chunkSize: int, maxBytes: int): seq<seq<Path>> {
    ChunksFrom(paths, 0, 0, chunkSize, maxBytes)
  }

  lemma WeightMore(paths: seq<Path>, start: nat, i: nat)
    requires start <= i < |paths|
    ensures Weight(paths[start..i + 1]) == Weight(paths[start..i]) + Weigh(paths[i])
    ensures Weight(paths[i..i + 1]) == Weigh(paths[i])
  {
    assert paths[start..i + 1][..i - start] == paths[start..i];
    assert paths[i..i + 1][..0] == [];
  }

  lemma ConcatMore(chunks: seq<seq<Path>>, chunk: seq<Path>)
    ensures Concat(chunks + [chunk]) == Concat(chunks) + chunk
  {
    assert (chunks + [chunk])[..|chunks|] == chunks;
  }

  lemma {:induction false} ConcatParts(a: seq<seq<Path>>, b: seq<seq<Path>>)
    ensures Concat(a + b) == Concat(a) + Concat(b)
    decreases |b|
  {
    if b == [] {
      assert a + b == a;
    } else {
      assert (a + b)[..|a + b| - 1] == a + b[..|b| - 1];
      ConcatParts(a, b[..|b| - 1]);
    }
  }

  lemma ConcatFirst(chunk: seq<Path>, rest: seq<seq<Path>>)
    ensures Concat([chunk] + rest) == chunk + Concat(rest)
  {
    ConcatParts([chunk], rest);
    ConcatMore([], chunk);
    assert [] + [chunk] == [chunk];
  }

  ghost predicate AllSendable(chunkSize: int, maxBytes: int, chunks: seq<seq<Path>>) {
    forall c :: c in chunks ==> Sendable(chunkSize, maxBytes, c)
  }

  lemma AllSendableMore(chunkSize: int, maxBytes: int, chunk: seq<Path>, rest: seq<seq<Path>>)
    requires Sendable(chunkSize, maxBytes, chunk) && AllSendable(chunkSize, maxBytes, rest)
    ensures AllSendable(chunkSize, maxBytes, [chunk] + rest)
  {
  }

  /** What is being gathered may still be sent. */
  ghost predicate Gathering(paths: seq<Path>, start: nat, i: nat, chunkSize: int, maxBytes: int) {
    && start <= i <= |paths| && i - start <= chunkSize
    && (i > start ==> CHUNK_OVERHEAD + Weight(paths[start..i]) <= maxBytes)
  }

  lemma GatherMore(paths: seq<Path>, start: nat, i: nat, chunkSize: int, maxBytes: int)
    requires i < |paths| && chunkSize >= 1
    requires Gathering(paths, start, i, chunkSize, maxBytes) && Fits(paths[i], maxBytes)
    ensures Full(paths, start, i, chunkSize, maxBytes) ==>
              Gathering(paths, i, i + 1, chunkSize, maxBytes) && Sendable(chunkSize, maxBytes, paths[start..i])
    ensures !Full(paths, start, i, chunkSize, maxBytes) ==> Gathering(paths, start, i + 1, chunkSize, maxBytes)
  {
    WeightMore(paths, start, i);
  }

  lemma {:induction false} ChunksFromMeet(paths: seq<Path>, start: nat, i: nat, chunkSize: int, maxBytes: int)
    requires chunkSize >= 1 && Gathering(paths, start, i, chunkSize, maxBytes)
    requires forall p :: p in paths ==> Fits(p, maxBytes)
    ensures Concat(ChunksFrom(paths, start, i, chunkSize, maxBytes)) == paths[start..]
    ensures AllSendable(chunkSize, maxBytes, ChunksFrom(paths, start, i, chunkSize, maxBytes))
    decreases |paths| - i
  {
    if i == |paths| {
      ConcatFirst(paths[start..i], []);
      assert [paths[start..i]] + [] == [paths[start..i]];
    } else {
      assert paths[i] in paths;
      GatherMore(paths, start, i, chunkSize, maxBytes);
      if Full(paths, start, i, chunkSize, maxBytes) {
        var rest := ChunksFrom(paths, i, i + 1, chunkSize, maxBytes);
        ChunksFromMeet(paths, i, i + 1, chunkSize, maxBytes);
        ConcatFirst(paths[start..i], rest);
        AllSendableMore(chunkSize, maxBytes, paths[start..i], rest);
        assert paths[start..] == paths[start..i] + paths[i..];
      } else {
        ChunksFromMeet(paths, start, i + 1, chunkSize, maxBytes);
      }
    }
  }

  /** The chunks concatenate to the manifest, each of them worth sending. */
  lemma ChunksMeetBudgets(paths: seq<Path>, chunkSize: int, maxBytes: int)
    requires chunkSize >= 1 && forall p :: p in paths ==> Fits(p, maxBytes)
    ensures Concat(Chunks(paths, chunkSize, maxBytes)) == paths
    ensures forall c :: c in Chunks(paths, chunkSize, maxBytes) ==> Sendable(chunkSize, maxBytes, c)
  {
    ChunksFromMeet(paths, 0, 0, chunkSize, maxBytes);
  }

  // ---------------------------------------------------------------- when a registration succeeds

  /** What depends on the client's parameters alone. */
  predicate Transferable(paths: seq<Path>, chunkSize: int, maxBytes: int) {
    && (forall p :: p in paths ==> Fits(p, maxBytes))
    && (forall c :: c in Chunks(paths, chunkSize, maxBytes) ==> Readable(c))
    && |paths| <= MAX_MANIFEST_PATHS
  }

  /** When a registration succeeds: every path can be encoded, and every limit of both sides is met. */
  ghost predicate Registrable(
    sha: Sha256, pending: map<Token, seq<Path>>, registered: map<Handle, Registered>, total: nat,
    paths: seq<Path>, chunkSize: int, maxBytes: int)
  {
    && chunkSize >= 1 && maxBytes >= MIN_CHUNK_BYTES
    && |pending| < MAX_PENDING_MANIFESTS
    && Transferable(paths, chunkSize, maxBytes)
    && Verdict(true, registered, total, Fingerprint(sha, paths), |paths|).Ok?
  }

  /** What each error says, and only says when it is so. */
  ghost predicate Explains(
    e: ClientError, sha: Sha256, pending: map<Token, seq<Path>>, registered: map<Handle, Registered>, total: nat,
    paths: seq<Path>, chunkSize: int, maxBytes: int)
  {
    match e
    case BadChunkSize => chunkSize < 1
    case BadChunkBytes => maxBytes < MIN_CHUNK_BYTES
    case Unencodable => exists p :: p in paths && Estimate(p).None?
    case PathTooLong => exists p :: p in paths && Estimate(p).Some? && !Fits(p, maxBytes)
    case RequestTooLarge => exists c :: c in Chunks(paths, chunkSize, maxBytes) && !Readable(c)
    case Refused(TooManyPending) => |pending| >= MAX_PENDING_MANIFESTS
    case Refused(PathLimit) => |paths| > MAX_MANIFEST_PATHS
    case Refused(why) =>
      && Transferable(paths, chunkSize, maxBytes)
      && Verdict(true, registered, total, Fingerprint(sha, paths), |paths|) == Err(why)
    case OtherManifest => false
  }

  /** The errors after which the daemon still holds the token and what was sent under it. */
  predicate LeavesToken(e: ClientError) {
    e.Unencodable? || e.PathTooLong? || e.RequestTooLarge?
  }

  // ---------------------------------------------------------------- sending

  function TextsOf(paths: seq<Path>): seq<Bytes> {
    seq(|paths|, i requires 0 <= i < |paths| => JoinPath(paths[i]))
  }

  /** Canonical paths survive their text form. */
  lemma {:induction false} NormalizedBack(normalize: Normalizer, paths: seq<Path>)
    requires Canonical(normalize, paths)
    ensures Normalized(normalize, TextsOf(paths)) == (paths, true)
    decreases |paths|
  {
    if paths != [] {
      assert paths[0] in paths;
      assert TextsOf(paths)[1..] == TextsOf(paths[1..]);
      NormalizedBack(normalize, paths[1..]);
      assert paths == [paths[0]] + paths[1..];
    }
  }

  /** What has been sent so far: whole chunks, in order, a prefix of the manifest. */
  ghost predicate Sent(reg: ManifestRegistry, token: Token, paths: seq<Path>, start: nat)
    reads reg
  {
    start <= |paths| && token in reg.pending && reg.pending[token] == paths[..start]
  }

  /** Why the chunks could not all be sent. */
  ghost predicate Unsendable(paths: seq<Path>, chunkSize: int, maxBytes: int, e: ClientError) {
    match e
    case Unencodable => exists p :: p in paths && Estimate(p).None?
    case PathTooLong => exists p :: p in paths && Estimate(p).Some? && !Fits(p, maxBytes)
    case RequestTooLarge => exists c :: c in Chunks(paths, chunkSize, maxBytes) && !Readable(c)
    case Refused(PathLimit) => |paths| > MAX_MANIFEST_PATHS
    case _ => false
  }

  /** One `manifest_append` request. */
  method Send(reg: ManifestRegistry, token: Token, paths: seq<Path>, start: nat, end: nat)
    returns (failure: Option<ClientError>)
    requires reg.Valid() && start <= end <= |paths| && Sent(reg, token, paths, start) && Canonical(reg.normalize, paths)
    modifies reg`pending
    ensures reg.Valid() && reg.pending - {token} == old(reg.pending) - {token}
    ensures failure.None? ==> Sent(reg, token, paths, end) && Readable(paths[start..end])
    ensures failure == Some(RequestTooLarge) ==> token in reg.pending && !Readable(paths[start..end])
    ensures failure.Some? && failure != Some(RequestTooLarge) ==>
              failure == Some(Refused(PathLimit)) && |paths| > MAX_MANIFEST_PATHS && token !in reg.pending
  {
    var chunk := paths[start..end];
    if !Readable(chunk) {
      return Some(RequestTooLarge);
    }
    NormalizedBack(reg.normalize, chunk);
    assert paths[..end] == paths[..start] + chunk;
    var r := reg.Append(token, TextsOf(chunk));
    failure := if r.Ok? then None else Some(Refused(r.error));
  }

  /** The loop has sent the planned chunks before `start` and is gathering from there to `i`. */
  ghost predicate Underway(
    reg: ManifestRegistry, token: Token, paths: seq<Path>, start: nat, i: nat, encoded: nat, chunkSize: int,
        maxBytes: int,
    sent: seq<seq<Path>>)
    reads reg
  {
    && start <= i <= |paths| && Sent(reg, token, paths, start)
    && encoded == CHUNK_OVERHEAD + Weight(paths[start..i])
    && (forall p :: p in paths[..i] ==> Fits(p, maxBytes))
    && (forall c :: c in sent ==> Readable(c))
    && sent + ChunksFrom(paths, start, i, chunkSize, maxBytes) == Chunks(paths, chunkSize, maxBytes)
  }

  /** A path joins the gathered chunk, or that chunk is done first. */
  lemma PlanStep(paths: seq<Path>, start: nat, i: nat, chunkSize: int, maxBytes: int, sent: seq<seq<Path>>)
    requires start <= i < |paths| && sent + ChunksFrom(paths, start, i, chunkSize, maxBytes) == Chunks(paths, chunkSize,
            maxBytes)
    ensures
      if Full(paths, start, i, chunkSize, maxBytes) then
        && (sent + [paths[start..i]]) + ChunksFrom(paths, i, i + 1, chunkSize, maxBytes) == Chunks(paths, chunkSize,
            maxBytes)
        && paths[start..i] in Chunks(paths, chunkSize, maxBytes)
      else sent + ChunksFrom(paths, start, i + 1, chunkSize, maxBytes) == Chunks(paths, chunkSize, maxBytes)
  {
    if Full(paths, start, i, chunkSize, maxBytes) {
      var rest := ChunksFrom(paths, i, i + 1, chunkSize, maxBytes);
      assert (sent + [paths[start..i]]) + rest == sent + ([paths[start..i]] + rest);
      assert Chunks(paths, chunkSize, maxBytes)[|sent|] == paths[start..i];
    }
  }

  lemma FitsMore(paths: seq<Path>, i: nat, maxBytes: int)
    requires i < |paths| && (forall p :: p in paths[..i] ==> Fits(p, maxBytes)) && Fits(paths[i], maxBytes)
    ensures forall p :: p in paths[..i + 1] ==> Fits(p, maxBytes)
  {
    assert paths[..i + 1] == paths[..i] + [paths[i]];
  }

  /** One path of the loop: send the gathered chunk first if this path does not fit in it. */
  method SendPath(reg: ManifestRegistry, token: Token, paths: seq<Path>, start: nat, i: nat, encoded: nat,
                  chunkSize: int, maxBytes: int, ghost sent: seq<seq<Path>>)
    returns (failure: Option<ClientError>, start': nat, encoded': nat, ghost sent': seq<seq<Path>>)
    requires reg.Valid() && i < |paths| && Canonical(reg.normalize, paths)
    requires Underway(reg, token, paths, start, i, encoded, chunkSize, maxBytes, sent)
    modifies reg`pending
    ensures reg.Valid() && reg.pending - {token} == old(reg.pending) - {token}
    ensures failure.None? ==> Underway(reg, token, paths, start', i + 1, encoded', chunkSize, maxBytes, sent')
    ensures failure.Some? ==> Unsendable(paths, chunkSize, maxBytes, failure.value)
    ensures failure.Some? ==> (token in reg.pending <==> LeavesToken(failure.value))
  {
    failure, start', encoded', sent' := None, start, encoded, sent;
    var estimate := Estimate(paths[i]);
    assert paths[i] in paths;
    if estimate.None? {
      failure := Some(Unencodable);
    } else if estimate.value + CHUNK_OVERHEAD > maxBytes {
      failure := Some(PathTooLong);
    } else {
      PlanStep(paths, start, i, chunkSize, maxBytes, sent);
      FitsMore(paths, i, maxBytes);
      WeightMore(paths, start, i);
      if i > start && (i - start >= chunkSize || encoded + estimate.value > maxBytes) {
        failure := Send(reg, token, paths, start, i);
        start', encoded', sent' := i, CHUNK_OVERHEAD, sent + [paths[start..i]];
      }
      encoded' := encoded' + estimate.value;
    }
  }

  /** The chunking loop of `register_manifest`: it sends exactly the planned chunks. */
  method SendChunks(reg: ManifestRegistry, token: Token, paths: seq<Path>, chunkSize: int, maxBytes: int)
    returns (failure: Option<ClientError>)
    requires reg.Valid() && token in reg.pending && reg.pending[token] == [] && Canonical(reg.normalize, paths)
    modifies reg`pending
    ensures reg.Valid() && reg.pending - {token} == old(reg.pending) - {token}
    ensures failure.None? ==> Sent(reg, token, paths, |paths|) && Transferable(paths, chunkSize, maxBytes)
    ensures failure.Some? ==> Unsendable(paths, chunkSize, maxBytes, failure.value)
    ensures failure.Some? ==> (token in reg.pending <==> LeavesToken(failure.value))
  {
    var start: nat, i: nat, encoded: nat := 0, 0, CHUNK_OVERHEAD;
    ghost var sent: seq<seq<Path>> := [];
    failure := None;
    while i < |paths| && failure.None?
      invariant 0 <= i <= |paths|
      invariant reg.Valid() && reg.pending - {token} == old(reg.pending) - {token}
      invariant failure.None? ==> Underway(reg, token, paths, start, i, encoded, chunkSize, maxBytes, sent)
      invariant failure.Some? ==> Unsendable(paths, chunkSize, maxBytes, failure.value)
      invariant failure.Some? ==> (token in reg.pending <==> LeavesToken(failure.value))
    {
      failure, start, encoded, sent := SendPath(reg, token, paths, start, i, encoded, chunkSize, maxBytes, sent);
      i := i + 1;
    }
    if failure.None? {
      failure := SendLast(reg, token, paths, start, encoded, chunkSize, maxBytes, sent);
    }
  }

  /** What is left after the loop goes as the last chunk. */
  method SendLast(reg: ManifestRegistry, token: Token, paths: seq<Path>, start: nat, ghost encoded: nat, chunkSize: int,
      maxBytes: int,
                  ghost sent: seq<seq<Path>>)
    returns (failure: Option<ClientError>)
    requires reg.Valid() && Canonical(reg.normalize, paths)
            && Underway(reg, token, paths, start, |paths|, encoded, chunkSize, maxBytes, sent)
    modifies reg`pending
    ensures reg.Valid() && reg.pending - {token} == old(reg.pending) - {token}
    ensures failure.None? ==> Sent(reg, token, paths, |paths|) && Transferable(paths, chunkSize, maxBytes)
    ensures failure.Some? ==> Unsendable(paths, chunkSize, maxBytes, failure.value)
    ensures failure.Some? ==> (token in reg.pending <==> LeavesToken(failure.value))
  {
    failure := None;
    assert paths[..|paths|] == paths;
    if start < |paths| {
      assert Chunks(paths, chunkSize, maxBytes) == sent + [paths[start..|paths|]];
      assert Chunks(paths, chunkSize, maxBytes)[|sent|] == paths[start..|paths|];
      failure := Send(reg, token, paths, start, |paths|);
    } else {
      assert Chunks(paths, chunkSize, maxBytes) == sent;
    }
    assert failure.None? ==> |reg.pending[token]| <= MAX_MANIFEST_PATHS;
  }

  /** The last request: what was sent is committed, and the handle compared. */
  method Finish(reg: ManifestRegistry, token: Token, paths: seq<Path>) returns (r: Result<Handle, ClientError>)
    requires reg.Valid() && TextSorted(paths) && token in reg.pending && reg.pending[token] == paths
            && Canonical(reg.normalize, paths)
    modifies reg
    ensures reg.Valid() && reg.pending == old(reg.pending) - {token}
    ensures var verdict := Verdict(true, old(reg.registered), old(reg.totalPaths), Fingerprint(reg.sha, paths),
            |paths|);
            r == match verdict case Ok(_) => Ok(Fingerprint(reg.sha, paths)) case Err(e) => Err(Refused(e))
    ensures r.Ok? ==> reg.registered == Granted(old(reg.registered), r.value, paths)
    ensures r.Err? ==> reg.registered == old(reg.registered)
  {
    ghost var committed;
    var c;
    c, committed := reg.CommitManifest(token);
    ArePlain(reg.normalize, paths);
    SortedPathsUnique(paths, committed);
    if c.Err? {
      r := Err(Refused(c.error));
    } else {
      r := if c.value.handle != Fingerprint(reg.sha, paths) then Err(OtherManifest) else Ok(c.value.handle);
    }
  }

  /** With a token in hand: send every chunk, commit. */
  method Transfer(reg: ManifestRegistry, token: Token, paths: seq<Path>, chunkSize: int, maxBytes: int)
    returns (r: Result<Handle, ClientError>)
    requires reg.Valid() && token in reg.pending && reg.pending[token] == []
    requires TextSorted(paths) && Canonical(reg.normalize, paths)
    modifies reg
    ensures reg.Valid() && reg.pending - {token} == old(reg.pending) - {token}
    ensures r.Ok? ==> Transferable(paths, chunkSize, maxBytes)
                      && Verdict(true, old(reg.registered), old(reg.totalPaths), Fingerprint(reg.sha, paths),
                          |paths|).Ok?
    ensures r.Ok? ==>
            r.value == Fingerprint(reg.sha, paths) && reg.registered == Granted(old(reg.registered), r.value, paths)
    ensures r.Err? ==> Hindered(r.error, reg.sha, old(reg.registered), old(reg.totalPaths), paths, chunkSize, maxBytes)
    ensures r.Err? ==> reg.registered == old(reg.registered)
    ensures token in reg.pending <==> r.Err? && LeavesToken(r.error)
  {
    var failure := SendChunks(reg, token, paths, chunkSize, maxBytes);
    if failure.Some? {
      r := Err(failure.value);
    } else {
      assert paths[..|paths|] == paths && reg.pending[token] == paths;
      r := Finish(reg, token, paths);
    }
  }

  /** Why a transfer failed. */
  ghost predicate Hindered(
    e: ClientError, sha: Sha256, registered: map<Handle, Registered>, total: nat,
    paths: seq<Path>, chunkSize: int, maxBytes: int)
  {
    || Unsendable(paths, chunkSize, maxBytes, e)
    || (Transferable(paths, chunkSize, maxBytes)
        && e.Refused? && Verdict(true, registered, total, Fingerprint(sha, paths), |paths|) == Err(e.error))
  }

  lemma VerdictErrors(registered: map<Handle, Registered>, total: nat, h: Handle, count: nat)
    ensures var v := Verdict(true, registered, total, h, count); v.Err? ==>
            v.error == HandleLimit || v.error == PathBudget
  {
  }

  /** What succeeds leaves nothing to explain. */
  lemma NothingToExplain(
    e: ClientError, sha: Sha256, pending: map<Token, seq<Path>>, registered: map<Handle, Registered>, total: nat,
    paths: seq<Path>, chunkSize: int, maxBytes: int)
    requires Explains(e, sha, pending, registered, total, paths, chunkSize, maxBytes)
    ensures !Registrable(sha, pending, registered, total, paths, chunkSize, maxBytes)
  {
  }

  /**
   `register_manifest` against a live registry, for a fresh token and a manifest of canonical
   paths. It succeeds exactly when the manifest is registrable, and then what the registry holds
   under the returned handle is this manifest, or there is a collision. An error is explained by
   what it says, changes no registered manifest, and leaves the token behind exactly if it arose
   on the client's side after the registration had begun.
   */
  method RegisterManifest(reg: ManifestRegistry, token: Token, paths: seq<Path>, chunkSize: int, maxBytes: int)
    returns (r: Result<Handle, ClientError>)
    requires reg.Valid() && token !in reg.pending && TextSorted(paths) && Canonical(reg.normalize, paths)
    modifies reg
    ensures reg.Valid() && reg.pending - {token} == old(reg.pending)
    ensures r.Ok? <==>
            Registrable(reg.sha, old(reg.pending), old(reg.registered), old(reg.totalPaths), paths, chunkSize, maxBytes)
    ensures r.Ok? ==>
            r.value == Fingerprint(reg.sha, paths) && reg.registered == Granted(old(reg.registered), r.value, paths)
    ensures r.Ok? ==>
              var held := reg.registered[r.value].paths;
              held == paths || Collision(reg.sha, FingerprintMessage(held), FingerprintMessage(paths))
    ensures r.Err? ==>
            Explains(r.error, reg.sha, old(reg.pending), old(reg.registered), old(reg.totalPaths), paths, chunkSize,
            maxBytes)
    ensures r.Err? ==> reg.registered == old(reg.registered)
    ensures token in reg.pending <==> r.Err? && LeavesToken(r.error)
  {
    GrantedIsThis(reg.sha, reg.normalize, reg.registered, paths);
    ghost var p0, m0, t0 := reg.pending, reg.registered, reg.totalPaths;
    VerdictErrors(m0, t0, Fingerprint(reg.sha, paths), |paths|);
    if chunkSize < 1 {
      r := Err(BadChunkSize);
    } else if maxBytes < MIN_CHUNK_BYTES {
      r := Err(BadChunkBytes);
    } else {
      r := BeginAndTransfer(reg, token, paths, chunkSize, maxBytes);
    }
    if r.Err? {
      NothingToExplain(r.error, reg.sha, p0, m0, t0, paths, chunkSize, maxBytes);
    }
  }

  /** Begin, and transfer if the daemon takes one more registration. */
  method BeginAndTransfer(reg: ManifestRegistry, token: Token, paths: seq<Path>, chunkSize: int, maxBytes: int)
    returns (r: Result<Handle, ClientError>)
    requires reg.Valid() && token !in reg.pending && TextSorted(paths) && Canonical(reg.normalize, paths)
    modifies reg
    ensures reg.Valid() && reg.pending - {token} == old(reg.pending)
    ensures r.Ok? ==> |old(reg.pending)| < MAX_PENDING_MANIFESTS && Transferable(paths, chunkSize, maxBytes)
                      && Verdict(true, old(reg.registered), old(reg.totalPaths), Fingerprint(reg.sha, paths),
                          |paths|).Ok?
    ensures r.Ok? ==>
            r.value == Fingerprint(reg.sha, paths) && reg.registered == Granted(old(reg.registered), r.value, paths)
    ensures r.Err? ==>
              || (r.error == Refused(TooManyPending) && |old(reg.pending)| >= MAX_PENDING_MANIFESTS)
              || Hindered(r.error, reg.sha, old(reg.registered), old(reg.totalPaths), paths, chunkSize, maxBytes)
    ensures r.Err? ==> reg.registered == old(reg.registered)
    ensures token in reg.pending <==> r.Err? && LeavesToken(r.error)
  {
    var begun := reg.Begin(token);
    if begun.Err? {
      r := Err(Refused(begun.error));
    } else {
      r := Transfer(reg, token, paths, chunkSize, maxBytes);
    }
  }

  // ---------------------------------------------------------------- where registrations fail

  /** Within this byte budget no request the client builds is ever too large for the daemon. */
  const SAFE_CHUNK_BYTES: nat := 699000

  lemma SmallChunksAreReadable(paths: seq<Path>, chunkSize: int, maxBytes: int)
    requires chunkSize >= 1 && maxBytes <= SAFE_CHUNK_BYTES && forall p :: p in paths ==> Fits(p, maxBytes)
    ensures forall c :: c in Chunks(paths, chunkSize, maxBytes) ==> Readable(c)
  {
    ChunksMeetBudgets(paths, chunkSize, maxBytes);
    forall c | c in Chunks(paths, chunkSize, maxBytes) ensures Readable(c) {
      ChunkOf(Chunks(paths, chunkSize, maxBytes), c);
      WireGrowth(c);
    }
  }

  lemma {:induction false} ChunkOf(chunks: seq<seq<Path>>, c: seq<Path>)
    requires c in chunks
    ensures forall p :: p in c ==> p in Concat(chunks)
  {
    if c != chunks[|chunks| - 1] {
      assert chunks == chunks[..|chunks| - 1] + [chunks[|chunks| - 1]];
      ChunkOf(chunks[..|chunks| - 1], c);
    }
  }

  lemma OnePathOneChunk(p: Path, chunkSize: int, maxBytes: int)
    ensures Chunks([p], chunkSize, maxBytes) == [[p]]
  {
    var paths := [p];
    assert ChunksFrom(paths, 0, 1, chunkSize, maxBytes) == [paths[0..1]] && paths[0..1] == paths;
  }

  const DEFAULT_CHUNK_SIZE: nat := 10000
  const DEFAULT_CHUNK_BYTES: nat := 1000000
  const DELETE: byte := 0x7F
  const LONG: nat := 900000

  /**
   With the default budgets a path can be within every budget of the client and yet make a request
   the daemon does not read: the estimate counts characters as they are, the request escapes them.
   */
  lemma DefaultBudgetsAreNotEnough()
    ensures
      var p := [seq(LONG, _ => DELETE)];
      && Portable(p) && Fits(p, DEFAULT_CHUNK_BYTES)
      && Chunks([p], DEFAULT_CHUNK_SIZE, DEFAULT_CHUNK_BYTES) == [[p]] && !Readable([p])
  {
    var name := seq(LONG, _ => DELETE);
    var p := [name];
    assert name[0] == DELETE && forall b :: b in name ==> b == DELETE;
    PlainAscii(LONG);
    TotalOfSame(KeptSize, DELETE, LONG);
    TotalOfSame(EscapedSize, DELETE, LONG);
    assert JoinPath(p) == name;
    OnePathOneChunk(p, DEFAULT_CHUNK_SIZE, DEFAULT_CHUNK_BYTES);
    var paths := [p];
    assert paths[..0] == [];
  }

  lemma {:induction false} PlainAscii(n: nat)
    ensures ValidUtf8(seq(n, _ => DELETE))
    decreases n
  {
    if n > 0 {
      assert seq(n, _ => DELETE)[1..] == seq(n - 1, _ => DELETE);
      PlainAscii(n - 1);
    }
  }

  /** The name of a file that is not UTF-8. */
  const UNDECODABLE: Path := [[0xFF]]

  /** A path that was not UTF-8 on disk cannot be registered at all, and its failure leaves a token behind. */
  lemma UndecodableIsNotRegistrable(
    e: ClientError, sha: Sha256, pending: map<Token, seq<Path>>, registered: map<Handle, Registered>, total: nat)
    requires |pending| < MAX_PENDING_MANIFESTS
    requires Explains(e, sha, pending, registered, total, [UNDECODABLE], DEFAULT_CHUNK_SIZE, DEFAULT_CHUNK_BYTES)
    ensures e == Unencodable && LeavesToken(e)
  {
    var paths := [UNDECODABLE];
    assert UNDECODABLE in paths && JoinPath(UNDECODABLE) == [0xFF] && Estimate(UNDECODABLE) == None;
    assert paths[..0] == [];
    OnePathOneChunk(UNDECODABLE, DEFAULT_CHUNK_SIZE, DEFAULT_CHUNK_BYTES);
    assert [0xFF][1..] == [];
    assert Total(EscapedSize, [0xFF]) == 12;
    assert paths[|paths| - 1] == UNDECODABLE && WireSize(paths[..0]) == 0 && WireSize(paths) == 15;
    assert Readable(paths);
    assert forall c :: c in [paths] ==> c == paths;
    assert !Fits(UNDECODABLE, DEFAULT_CHUNK_BYTES);
  }

  /** Eight such failures block the registry for every client. */
  method BlockRegistry(reg: ManifestRegistry, tokens: seq<Token>)
    requires reg.Valid() && reg.normalize(JoinPath(UNDECODABLE)) == Some(UNDECODABLE)
    requires reg.pending == map[] && |tokens| == MAX_PENDING_MANIFESTS && Distinct(tokens)
    modifies reg
    ensures reg.Valid() && reg.pending.Keys == Elements(tokens)
    ensures forall paths, chunkSize, maxBytes ::
              !Registrable(reg.sha, reg.pending, reg.registered, reg.totalPaths, paths, chunkSize, maxBytes)
  {
    UndecodableIsCanonical(reg.normalize);
    var i := 0;
    while i < |tokens|
      invariant 0 <= i <= |tokens| && reg.Valid()
      invariant reg.pending.Keys == Elements(tokens[..i]) && |reg.pending| == i
    {
      TokensMore(tokens, i);
      ghost var p0, m0, t0 := reg.pending, reg.registered, reg.totalPaths;
      var r := RegisterManifest(reg, tokens[i], [UNDECODABLE], DEFAULT_CHUNK_SIZE, DEFAULT_CHUNK_BYTES);
      assert Estimate(UNDECODABLE) == None && UNDECODABLE in [UNDECODABLE];
      UndecodableIsNotRegistrable(r.error, reg.sha, p0, m0, t0);
      OneMorePending(p0, reg.pending, tokens[i]);
      i := i + 1;
    }
    assert tokens[..i] == tokens;
  }

  lemma OneMorePending(before: map<Token, seq<Path>>, after: map<Token, seq<Path>>, token: Token)
    requires after - {token} == before && token in after
    ensures after.Keys == before.Keys + {token} && |after| == |before| + 1
  {
    assert token !in before;
    assert after.Keys == before.Keys + {token};
    assert |after| == |after.Keys| && |before| == |before.Keys|;
  }

  lemma TokensMore(tokens: seq<Token>, i: nat)
    requires Distinct(tokens) && i < |tokens|
    ensures Elements(tokens[..i + 1]) == Elements(tokens[..i]) + {tokens[i]} && tokens[i] !in Elements(tokens[..i])
  {
    assert tokens[..i + 1] == tokens[..i] + [tokens[i]];
  }

  lemma UndecodableIsCanonical(normalize: Normalizer)
    requires normalize(JoinPath(UNDECODABLE)) == Some(UNDECODABLE)
    ensures Canonical(normalize, [UNDECODABLE]) && TextSorted([UNDECODABLE])
  {
    assert JoinPath(UNDECODABLE) == [0xFF];
    assert Encoding.Capacity(8) > 1;
  }

  /** The engine's own normalization keeps it. */
  lemma UndecodableIsKept()
    ensures NormalizeInput(JoinPath(UNDECODABLE)) == Some(UNDECODABLE)
  {
    NormalizeKeepsPortable(UNDECODABLE);
    assert UNDECODABLE[0] == [0xFF];
  }
}
