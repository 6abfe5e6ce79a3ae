/**
 Reading a file that may be changing: the chunked hash fold, and the loop that accepts bytes
 only when the metadata sampled before and after them agree.
 */
module StableReads {
  import opened Base
  import opened Encoding
  import opened HostFiles

  datatype ReadError = NotFound | Unstable | BoundExceeded | InvalidBound

  // ---------------------------------------------------------------- one pass over an open file

  /** Incremental SHA-256: it depends only on the bytes fed so far, in order. */
  class Hasher {
    const sha: Sha256
    var fed: Bytes

    constructor (sha: Sha256, domain: Bytes)
      ensures this.sha == sha && fed == domain
    {
      this.sha, fed := sha, domain;
    }

    method Update(data: Bytes)
      modifies this
      ensures fed == old(fed) + data
    {
      fed := fed + data;
    }

    method Finish() returns (hash: Hash32)
      ensures hash == sha(fed)
    {
      hash := sha(fed);
    }
  }

  /** What has been read of an open file is a prefix of it, if it held still meanwhile. */
  ghost predicate ReadSoFar(plan: Plan, start: nat, now: nat, h: Inode, got: Bytes) {
    forall c :: Steady(plan, start, now, h, c) ==> got <= c
  }

  ghost predicate ReadToEnd(plan: Plan, start: nat, now: nat, h: Inode, got: Bytes) {
    forall c :: Steady(plan, start, now, h, c) ==> got == c
  }

  lemma ReadMore(plan: Plan, start: nat, now: nat, h: Inode, got: Bytes, chunk: Bytes, want: nat)
    requires start <= now && want > 0 && ReadSoFar(plan, start, now, h, got)
    requires ReadResult(plan(now + 1), h, |got|, want, chunk)
    ensures ReadSoFar(plan, start, now + 1, h, got + chunk)
    ensures chunk == [] ==> ReadToEnd(plan, start, now + 1, h, got)
  {
    var next := now + 1;
    forall c | Steady(plan, start, next, h, c) ensures got + chunk <= c && (chunk == [] ==> got == c) {
      assert Steady(plan, start, now, h, c);
      assert plan(next).files[h].content == c;
    }
  }

  /** `read` with a negative size: raw reads until one comes back empty. */
  method ReadRest(host: Host, h: Inode, ghost start: nat, ghost got: Bytes, offset: nat) returns (data: Bytes)
    requires host.Valid() && start <= host.now && |got| == offset <= host.capacity
    requires ReadSoFar(host.plan, start, host.now, h, got)
    modifies host`now
    ensures old(host.now) < host.now && offset + |data| <= host.capacity
    ensures ReadSoFar(host.plan, start, host.now, h, got + data)
    ensures data == [] ==> ReadToEnd(host.plan, start, host.now, h, got)
  {
    data := [];
    var more := true;
    assert got + data == got;
    while more
      invariant old(host.now) <= host.now && offset + |data| <= host.capacity && (!more ==> old(host.now) < host.now)
      invariant ReadSoFar(host.plan, start, host.now, h, got + data)
      invariant !more && data == [] ==> ReadToEnd(host.plan, start, host.now, h, got)
      decreases host.capacity - |data|, more
    {
      ghost var before := host.now;
      var chunk := host.Read(h, offset + |data|, FILE_CHUNK);
      ReadMore(host.plan, start, before, h, got + data, chunk, FILE_CHUNK);
      assert (got + data) + chunk == got + (data + chunk);
      more := chunk != [];
      assert data == [] ==> got + data == got;
      data := data + chunk;
    }
  }

  /** One `read` of the stream: a chunk of at most the given size, or all that is left if it is negative. */
  method ReadChunk(host: Host, h: Inode, chunkSize: int, ghost start: nat, ghost got: Bytes, offset: nat)
    returns (chunk: Bytes)
    requires host.Valid() && start <= host.now && |got| == offset <= host.capacity && chunkSize != 0
    requires ReadSoFar(host.plan, start, host.now, h, got)
    modifies host`now
    ensures old(host.now) < host.now && offset + |chunk| <= host.capacity
    ensures ReadSoFar(host.plan, start, host.now, h, got + chunk)
    ensures chunk == [] ==> ReadToEnd(host.plan, start, host.now, h, got)
  {
    if chunkSize < 0 {
      chunk := ReadRest(host, h, start, got, offset);
    } else {
      ghost var before := host.now;
      chunk := host.Read(h, offset, chunkSize);
      ReadMore(host.plan, start, before, h, got, chunk, chunkSize);
    }
  }

  /**
   `_hash_stream`: whatever the chunk size, a file that holds still hashes as a whole; a size of
   zero reads nothing.
   */
  method HashStream(host: Host, h: Inode, sha: Sha256, domain: Domain, chunkSize: int) returns (digest: Digest)
    requires host.Valid()
    modifies host`now
    ensures old(host.now) < host.now
    ensures chunkSize != 0 ==> forall c :: Steady(host.plan, old(host.now), host.now, h, c) ==>
            digest == HashBytes(sha, domain, c)
    ensures chunkSize == 0 ==> digest == HashBytes(sha, domain, [])
  {
    var hasher := new Hasher(sha, Encoding.Ascii(DomainText(domain)));
    var size, more := 0, true;
    ghost var got, start := [], host.now;
    assert hasher.fed == Message(domain, got);
    while more
      invariant start <= host.now && (!more ==> start < host.now)
      invariant hasher.sha == sha && hasher.fed == Message(domain, got) && size == |got| <= host.capacity
      invariant chunkSize != 0 ==> ReadSoFar(host.plan, start, host.now, h, got)
      invariant chunkSize != 0 && !more ==> ReadToEnd(host.plan, start, host.now, h, got)
      invariant chunkSize == 0 ==> got == []
      decreases host.capacity - size, more
    {
      var chunk;
      if chunkSize == 0 {
        chunk := host.Read(h, size, 0);
      } else {
        chunk := ReadChunk(host, h, chunkSize, start, got, size);
      }
      if chunk == [] {
        more := false;
        assert got + chunk == got;
      } else {
        hasher.Update(chunk);
        size, got := size + |chunk|, got + chunk;
        assert hasher.fed == Message(domain, got);
      }
    }
    var hash := hasher.Finish();
    digest := Digest(hash, size);
  }

  /** Read an open file up to a limit, or to its end. */
  method ReadUpTo(host: Host, h: Inode, limit: Option<nat>) returns (data: Bytes)
    requires host.Valid()
    modifies host`now
    ensures old(host.now) <= host.now && (limit.Some? ==> |data| <= limit.value)
    ensures limit.None? || |data| < limit.value ==> ReadToEnd(host.plan, old(host.now), host.now, h, data)
    ensures data != [] ==> Grown(host.plan, old(host.now), host.now, h, |data|)
  {
    data := [];
    var more := true;
    ghost var start := host.now;
    while more && (limit.None? || |data| < limit.value)
      invariant start <= host.now && |data| <= host.capacity && (limit.Some? ==> |data| <= limit.value)
      invariant ReadSoFar(host.plan, start, host.now, h, data)
      invariant !more ==> ReadToEnd(host.plan, start, host.now, h, data)
      invariant data != [] ==> Grown(host.plan, start, host.now, h, |data|)
      decreases host.capacity - |data|, more
    {
      var want := if limit.None? then FILE_CHUNK else limit.value - |data|;
      ghost var before, got := host.now, data;
      var chunk := host.Read(h, |data|, want);
      ReadMore(host.plan, start, before, h, data, chunk, want);
      more := chunk != [];
      data := data + chunk;
      assert !more ==> data == got;
      if more {
        assert Holds(host.plan(host.now), h, |data|);
      }
    }
  }

  predicate Holds(d: Disk, h: Inode, size: int) {
    h in d.files && size <= |d.files[h].content|
  }

  /** At some moment of a window the open file had at least this many bytes. */
  ghost predicate Grown(plan: Plan, start: nat, end: nat, h: Inode, size: nat) {
    exists t | start < t <= end :: Holds(plan(t), h, size)
  }

  const FILE_CHUNK: nat := 1048576

  // ---------------------------------------------------------------- between two samples

  /** A digest and metadata that are both those of one moment. */
  ghost predicate Observed(sha: Sha256, d: Disk, p: Path, digest: Digest, m: Metadata) {
    Stat(d, p) == Some(m) && digest == FileDigest(sha, Content(d, p))
  }

  /** A path whose metadata agrees at both ends of a window can be at and read in between. */
  lemma HonestWindow(plan: Plan, p: Path, start: nat, at: nat, end: nat)
    requires Honest(plan) && start <= at <= end
    requires Stat(plan(start), p).Some? && Stat(plan(start), p) == Stat(plan(end), p)
    ensures Present(plan(at), p)
    ensures forall from: nat :: at <= from ==> Steady(plan, from, end, plan(at).names[p], Content(plan(end), p))
  {
    assert SameFile(plan(start), plan(at), p) && SameFile(plan(start), plan(end), p);
    forall t: nat | at < t <= end ensures SameFile(plan(start), plan(t), p) {}
  }

  /** `hash_file` between a sample and the next one; `None` where opening raises. */
  method HashFile(host: Host, p: Path, sha: Sha256) returns (digest: Option<Digest>, ghost at: nat)
    requires host.Valid()
    modifies host`now
    ensures old(host.now) < at <= host.now
    ensures digest.Some? <==> Present(host.plan(at), p)
    ensures digest.Some? ==> forall c :: Steady(host.plan, at, host.now, host.plan(at).names[p], c) ==>
            digest == Some(FileDigest(sha, c))
  {
    var h := host.Open(p);
    at := host.now;
    if h.None? {
      digest := None;
    } else {
      var d := HashStream(host, h.value, sha, FileDomain, FILE_CHUNK);
      digest := Some(d);
    }
  }

  /** Samples taken in order within a window, each different from the one before. */
  ghost predicate KeptMoving(plan: Plan, p: Path, samples: seq<nat>, end: nat) {
    && |samples| > 0 && samples[|samples| - 1] <= end
    && forall i | 0 < i < |samples| :: samples[i - 1] < samples[i] <= end
        && Stat(plan(samples[i - 1]), p) != Stat(plan(samples[i]), p)
  }

  lemma MovedAgain(plan: Plan, p: Path, samples: seq<nat>, end: nat, next: nat)
    requires KeptMoving(plan, p, samples, end) && end < next
    requires Stat(plan(samples[|samples| - 1]), p) != Stat(plan(next), p)
    ensures KeptMoving(plan, p, samples + [next], next)
  {
  }

  ghost predicate Vanished(plan: Plan, start: nat, end: nat, p: Path) {
    exists t | start < t <= end :: !Present(plan(t), p)
  }

  /** One attempt: hash, then sample again. `None` where a call raises FileNotFoundError. */
  method HashOnce(host: Host, p: Path, sha: Sha256, before: Metadata, ghost sampled: nat)
    returns (r: Option<(Digest, Metadata)>)
    requires host.Valid() && Honest(host.plan) && sampled <= host.now && Stat(host.plan(sampled), p) == Some(before)
    modifies host`now
    ensures old(host.now) < host.now
    ensures r.None? ==> Vanished(host.plan, old(host.now), host.now, p)
    ensures r.Some? ==> Stat(host.plan(host.now), p) == Some(r.value.1)
    ensures r.Some? && r.value.1 == before ==> Observed(sha, host.plan(host.now), p, r.value.0, before)
  {
    ghost var at;
    var digest;
    digest, at := HashFile(host, p, sha);
    if digest.None? {
      return None;
    }
    ghost var read := host.now;
    var after := host.StatFile(p);
    if after == Some(before) {
      HonestWindow(host.plan, p, sampled, at, host.now);
      assert Steady(host.plan, at, host.now, host.plan(at).names[p], Content(host.plan(host.now), p));
      assert Steady(host.plan, at, read, host.plan(at).names[p], Content(host.plan(host.now), p));
    }
    r := if after.None? then None else Some((digest.value, after.value));
  }

  /**
   `_hash_stable`: a digest it returns is that of the content its last metadata sample saw. It
   gives up only if the path vanished, or if its metadata changed during every attempt.
   */
  method HashStable(host: Host, p: Path, sha: Sha256, initial: Metadata, maxAttempts: nat, ghost sampled: nat)
    returns (r: Result<(Digest, Metadata), ReadError>, ghost samples: seq<nat>)
    requires host.Valid() && Honest(host.plan) && sampled <= host.now && Stat(host.plan(sampled), p) == Some(initial)
    modifies host`now
    ensures old(host.now) <= host.now && (r.Ok? ==> old(host.now) < host.now)
    ensures r.Ok? ==> Observed(sha, host.plan(host.now), p, r.value.0, r.value.1)
    ensures r.Err? ==> r.error == Unstable || (r.error == NotFound && Vanished(host.plan, old(host.now), host.now, p))
    ensures r == Err(Unstable) ==>
            KeptMoving(host.plan, p, samples, host.now) && |samples| == maxAttempts + 1 && samples[0] == sampled
  {
    var before, i, done := initial, 0, false;
    r, samples := Err(Unstable), [sampled];
    ghost var start := host.now;
    while i < maxAttempts && !done
      invariant 0 <= i <= maxAttempts && start <= host.now
      invariant !done ==>
              r == Err(Unstable) && KeptMoving(host.plan, p, samples, host.now) && |samples| == i + 1
              && samples[0] == sampled
      invariant !done ==> Stat(host.plan(samples[i]), p) == Some(before)
      invariant done ==> start < host.now
      invariant done ==> (r.Ok? && Observed(sha, host.plan(host.now), p, r.value.0, r.value.1))
                         || (r == Err(NotFound) && Vanished(host.plan, start, host.now, p))
    {
      var seen := HashOnce(host, p, sha, before, samples[i]);
      if seen.None? {
        r, done := Err(NotFound), true;
      } else if seen.value.1 == before {
        r, done := Ok(seen.value), true;
      } else {
        MovedAgain(host.plan, p, samples, host.now - 1, host.now);
        before, samples := seen.value.1, samples + [host.now];
      }
      i := i + 1;
    }
  }

  /** A moment at which the path named, or had named, a file larger than the bound. */
  ghost predicate Oversized(plan: Plan, start: nat, end: nat, p: Path, bound: int) {
    exists t: nat, u: nat | start <= u <= t <= end :: Present(plan(u), p) && Holds(plan(t), plan(u).names[p], bound + 1)
  }

  ghost predicate ReadAnswer(
    plan: Plan, p: Path, sha: Sha256, maxBytes: Option<int>, start: nat, end: nat,
        r: Result<(Bytes, Digest), ReadError>)
  {
    match r
    case Ok((data, digest)) =>
      && Present(plan(end), p) && data == Content(plan(end), p) && digest == FileDigest(sha, data)
      && (maxBytes.Some? ==> |data| <= maxBytes.value)
    case Err(e) =>
      || (e == NotFound && Vanished(plan, start, end, p))
      || (e == BoundExceeded && maxBytes.Some? && Oversized(plan, start, end, p, maxBytes.value))
  }

  /** One attempt: the bound is checked against the sample, then against what was read. */
  method ReadOnce(host: Host, p: Path, maxBytes: Option<int>, before: Metadata, ghost sampled: nat)
    returns (data: Result<Bytes, ReadError>)
    requires host.Valid() && Honest(host.plan) && sampled <= host.now && Stat(host.plan(sampled), p) == Some(before)
    requires maxBytes.Some? ==> maxBytes.value >= 0
    modifies host`now
    ensures old(host.now) <= host.now
    ensures data.Ok? ==> forall end: nat :: host.now <= end && Stat(host.plan(end), p) == Some(before) ==>
            data.value == Content(host.plan(end), p)
    ensures data.Ok? && maxBytes.Some? ==> |data.value| <= maxBytes.value
    ensures data.Err? ==>
      || (data.error == NotFound && Vanished(host.plan, old(host.now), host.now, p))
      || (data.error == BoundExceeded && maxBytes.Some? && Oversized(host.plan, sampled, host.now, p, maxBytes.value))
  {
    if maxBytes.Some? && before.size > maxBytes.value {
      assert Holds(host.plan(sampled), host.plan(sampled).names[p], maxBytes.value + 1);
      return Err(BoundExceeded);
    }
    var h := host.Open(p);
    if h.None? {
      return Err(NotFound);
    }
    ghost var at := host.now;
    var got := ReadUpTo(host, h.value, if maxBytes.None? then None else Some(maxBytes.value + 1));
    if maxBytes.Some? && |got| > maxBytes.value {
      assert Grown(host.plan, at, host.now, h.value, maxBytes.value + 1);
      data := Err(BoundExceeded);
    } else {
      forall end: nat | host.now <= end && Stat(host.plan(end), p) == Some(before)
        ensures got == Content(host.plan(end), p)
      {
        HonestWindow(host.plan, p, sampled, at, end);
        assert Steady(host.plan, at, end, h.value, Content(host.plan(end), p));
        assert Steady(host.plan, at, host.now, h.value, Content(host.plan(end), p));
      }
      data := Ok(got);
    }
  }

  /**
   `read_bytes_stable`: bytes it returns are exactly the content its last sample saw, within the
   bound; a bound error means a larger file really was there.
   */
  method ReadBytesStable(host: Host, p: Path, sha: Sha256, maxAttempts: nat, maxBytes: Option<int>)
    returns (r: Result<(Bytes, Digest), ReadError>, ghost samples: seq<nat>)
    requires host.Valid() && Honest(host.plan)
    modifies host`now
    ensures old(host.now) <= host.now
    ensures r == Err(InvalidBound) <==> maxBytes.Some? && maxBytes.value < 0
    ensures r.Ok? ==>
            Present(host.plan(host.now), p) && r.value.0 == Content(host.plan(host.now), p)
            && r.value.1 == FileDigest(sha, r.value.0)
    ensures r.Ok? && maxBytes.Some? ==> |r.value.0| <= maxBytes.value
    ensures r == Err(NotFound) ==> Vanished(host.plan, old(host.now), host.now, p)
    ensures r == Err(BoundExceeded) ==>
            maxBytes.Some? && Oversized(host.plan, old(host.now), host.now, p, maxBytes.value)
    ensures r == Err(Unstable) ==> KeptMoving(host.plan, p, samples, host.now) && |samples| == maxAttempts + 1
  {
    samples := [];
    if maxBytes.Some? && maxBytes.value < 0 {
      return Err(InvalidBound), [];
    }
    ghost var start := host.now;
    var first := host.StatFile(p);
    if first.None? {
      return Err(NotFound), [];
    }
    var before, i, done := first.value, 0, false;
    r, samples := Err(Unstable), [host.now];
    while i < maxAttempts && !done
      invariant 0 <= i <= maxAttempts && start < host.now
      invariant !done ==> r == Err(Unstable) && KeptMoving(host.plan, p, samples, host.now) && |samples| == i + 1
      invariant !done ==> start < samples[i] && Stat(host.plan(samples[i]), p) == Some(before)
      invariant done ==> ReadAnswer(host.plan, p, sha, maxBytes, start, host.now, r)
    {
      var data;
      data := ReadOnce(host, p, maxBytes, before, samples[i]);
      if data.Err? {
        r, done := Err(data.error), true;
      } else {
        var after := host.StatFile(p);
        if after.None? {
          r, done := Err(NotFound), true;
        } else if after.value == before {
          r, done := Ok((data.value, HashBytes(sha, FileDomain, data.value))), true;
        } else {
          MovedAgain(host.plan, p, samples, host.now - 1, host.now);
          before, samples := after.value, samples + [host.now];
        }
      }
      i := i + 1;
    }
  }
}
