/** The file-digest store: lookups, batched writes, and digests served from rows whose metadata still matches. */
module FileDigestStores {
  import opened Base
  import opened Encoding
  import opened HostFiles
  import opened StableReads
  import opened MetadataCodecs
  import opened FileRows

  const SQLITE_BATCH: nat := 500
  const MAX_ATTEMPTS: nat := 3

  /** The row a caller may use: the answer of the two levels, or none if everything is to be read. */
  function Usable(force: bool, codec: RowCodec, rows: Rows, db: Table, k: Key): Option<CachedRow> {
    if force then None else Answer(rows, Decoded(codec, db), k)
  }

  /** A row found for a path, with the metadata the path shows. */
  predicate Fresh(row: Option<CachedRow>, sample: Option<Metadata>) {
    row.Some? && sample == Some(row.value.metadata)
  }

  /** The sample taken next finds the metadata of the path's row. */
  ghost predicate HitAt(plan: Plan, now: nat, ws: Path, rel: Path, table: map<Path, CachedRow>) {
    rel in table && Stat(plan(now + 1), ws + rel) == Some(table[rel].metadata)
  }

  /** So do the samples of the first `n` files, taken one after the other. */
  ghost predicate Hits(plan: Plan, start: nat, ws: Path, rels: seq<Path>, n: nat, table: map<Path, CachedRow>)
    requires n <= |rels|
  {
    forall j | 0 <= j < n :: HitAt(plan, start + j, ws, rels[j], table)
  }

  /** A sample a file has been taken, and nothing been read exactly if they all were hits. */
  ghost predicate Timed(plan: Plan, start: nat, now: nat, ws: Path, rels: seq<Path>, n: nat,
      table: map<Path, CachedRow>)
    requires n <= |rels|
  {
    start + n <= now && (now == start + n <==> Hits(plan, start, ws, rels, n, table))
  }

  lemma TimedNext(plan: Plan, start: nat, before: nat, now: nat, ws: Path, rels: seq<Path>, i: nat,
      table: map<Path, CachedRow>)
    requires i < |rels| && before < now && Timed(plan, start, before, ws, rels, i, table)
    requires now == before + 1 <==> HitAt(plan, before, ws, rels[i], table)
    ensures Timed(plan, start, now, ws, rels, i + 1, table)
  {
    if now == start + i + 1 {
      assert before == start + i;
    }
    if Hits(plan, start, ws, rels, i + 1, table) {
      assert HitAt(plan, start + i, ws, rels[i], table);
      assert Hits(plan, start, ws, rels, i, table);
    }
  }

  class FileDigestStore {
    const host: Host
    const sha: Sha256
    const codec: RowCodec
    var rows: Rows
    var db: Table

    ghost predicate Valid()
      reads this, host
    {
      host.Valid() && Honest(host.plan) && Sound(codec, sha, host.plan, host.now, rows, db)
    }

    /** Opening a database left by earlier runs: whatever decodes in it was once true. */
    constructor (host: Host, sha: Sha256, db: Table)
      requires host.Valid() && Honest(host.plan) && Truthful(sha, host.plan, host.now, Decoded(MetadataRowCodec(), db))
      ensures Valid() && this.host == host && this.sha == sha && codec == MetadataRowCodec() && rows == map[]
              && this.db == db
    {
      this.host, this.sha, this.codec, this.rows, this.db := host, sha, MetadataRowCodec(), map[], db;
      MetadataRowCodecIsLawful();
    }

    /** `_discard_corrupt_row`. */
    method Discard(k: Key)
      modifies this`rows, this`db
      ensures rows == old(rows) - {k} && db == old(db) - {k}
    {
      db := db - {k};
      rows := rows - {k};
    }

    /** Type a stored row and keep it in memory, or discard it as corrupt. */
    method Load(k: Key) returns (row: Option<CachedRow>)
      requires k in db && (k in rows ==> codec.decode(db[k]) == Ok(rows[k]))
      modifies this`rows, this`db
      ensures Loaded(codec, old(rows), old(db), rows, db, {k})
      ensures row == Answer(map[], Decoded(codec, old(db)), k) == Answer(rows, map[], k)
      ensures k in db <==> row.Some?
    {
      if codec.Corrupt(db[k]) {
        DiscardIsStep(codec, rows, db, k);
        Discard(k);
        row := None;
      } else {
        LoadIsStep(codec, rows, db, k);
        rows := rows[k := codec.decode(db[k]).value];
        row := Some(rows[k]);
      }
    }

    /** `_row`: the answer for one key; no answer changes, and a corrupt row is gone. */
    method LookUp(k: Key) returns (row: Option<CachedRow>)
      requires Valid()
      modifies this`rows, this`db
      ensures Valid() && Loaded(codec, old(rows), old(db), rows, db, {k})
      ensures row == Answer(old(rows), Decoded(codec, old(db)), k)
      ensures if row.Some? then k in rows && rows[k] == row.value else k !in rows && k !in db
    {
      NothingLoaded(codec, rows, db, {k});
      if k in rows {
        row := Some(rows[k]);
      } else if k !in db {
        row := None;
      } else {
        row := Load(k);
      }
      LoadedIsSound(codec, sha, host.plan, host.now, old(rows), old(db), rows, db, {k});
    }

    /** One statement of `_rows_many`: type the stored rows among a chunk of paths, in any order. */
    method SelectChunk(ws: Path, chunk: seq<Path>, found: map<Path, CachedRow>) returns (result: map<Path, CachedRow>)
      requires |chunk| <= SQLITE_BATCH && NotHidden(rows, Decoded(codec, db), ws, Elements(chunk))
      modifies this`rows, this`db
      ensures Loaded(codec, old(rows), old(db), rows, db, KeysOf(ws, Elements(chunk)))
      ensures result == found + OnDisk(Decoded(codec, old(db)), ws, Elements(chunk))
      ensures NoneCorrupt(codec, db, ws, Elements(chunk))
    {
      var todo := set rel | rel in chunk && (ws, rel) in db;
      result := found;
      ghost var all, rows0, db0 := Elements(chunk), rows, db;
      ghost var disk := Decoded(codec, db0);
      NothingLoaded(codec, rows, db, KeysOf(ws, all));
      OnDiskStarts(codec, db, ws, todo, all);
      while todo != {}
        invariant todo <= all && forall rel :: rel in todo ==> (ws, rel) in db
        invariant Loaded(codec, rows0, db0, rows, db, KeysOf(ws, all))
        invariant result == found + OnDisk(disk, ws, all - todo)
        invariant NoneCorrupt(codec, db, ws, all - todo)
        decreases todo
      {
        var rel :| rel in todo;
        result := SelectRow(ws, rel, result, all, all - todo, found, rows0, db0);
        assert all - (todo - {rel}) == (all - todo) + {rel};
        todo := todo - {rel};
      }
      assert all - todo == all;
    }

    /** One row of the statement's result. */
    method SelectRow(ws: Path, rel: Path, result: map<Path, CachedRow>, ghost all: set<Path>, ghost done: set<Path>,
                     ghost found: map<Path, CachedRow>, ghost rows0: Rows,
                         ghost db0: Table) returns (result': map<Path, CachedRow>)
      requires rel in all && rel !in done && (ws, rel) in db
      requires Loaded(codec, rows0, db0, rows, db, KeysOf(ws, all)) && NotHidden(rows0, Decoded(codec, db0), ws, all)
      requires result == found + OnDisk(Decoded(codec, db0), ws, done) && NoneCorrupt(codec, db, ws, done)
      modifies this`rows, this`db
      ensures Loaded(codec, rows0, db0, rows, db, KeysOf(ws, all))
      ensures result' == found + OnDisk(Decoded(codec, db0), ws, done + {rel})
              && NoneCorrupt(codec, db, ws, done + {rel})
      ensures forall other :: other != rel && (ws, other) in old(db) ==> (ws, other) in db
    {
      ghost var rows1, db1 := rows, db;
      LoadedKeepsDisk(codec, rows0, db0, rows1, db1, KeysOf(ws, all));
      var row := Load((ws, rel));
      LoadedKeepsDisk(codec, rows1, db1, rows, db, {(ws, rel)});
      LoadedOn(codec, rows0, db0, rows1, db1, rows, db, KeysOf(ws, all), {(ws, rel)}, KeysOf(ws, all));
      OnDiskGrows(Decoded(codec, db0), ws, done, rel, found);
      result' := if row.Some? then result[rel := row.value] else result;
    }

    /** `_rows_many`: exactly the answers for the requested paths, and no answer changes. */
    method LookUpMany(ws: Path, rels: seq<Path>) returns (result: map<Path, CachedRow>)
      requires Valid()
      modifies this`rows, this`db
      ensures Valid() && Loaded(codec, old(rows), old(db), rows, db, KeysOf(ws, Elements(rels)))
      ensures result == Answers(old(rows), Decoded(codec, old(db)), ws, Elements(rels))
    {
      ghost var all, rows0, db0 := Elements(rels), rows, db;
      var missing;
      result, missing := InMemory(ws, rels);
      result := SelectMissing(ws, missing, result, all);
      AnswersSplit(rows0, Decoded(codec, db0), ws, all);
      LoadedIsSound(codec, sha, host.plan, host.now, rows0, db0, rows, db, KeysOf(ws, all));
    }

    /** The first pass of `_rows_many`: rows already in memory, and the paths without one. */
    method InMemory(ws: Path, rels: seq<Path>) returns (found: map<Path, CachedRow>, missing: seq<Path>)
      ensures found == Answers(rows, map[], ws, Elements(rels))
      ensures Elements(missing) == Missing(rows, ws, Elements(rels))
    {
      found, missing := map[], [];
      for i := 0 to |rels|
        invariant found == Answers(rows, map[], ws, Elements(rels[..i]))
        invariant Elements(missing) == Missing(rows, ws, Elements(rels[..i]))
      {
        ElementsMore(rels[..i], rels[i]);
        ElementsMore(missing, rels[i]);
        assert rels[..i + 1] == rels[..i] + [rels[i]];
        if (ws, rels[i]) in rows {
          found := found[rels[i] := rows[(ws, rels[i])]];
        } else {
          missing := missing + [rels[i]];
        }
      }
      assert rels[..|rels|] == rels;
    }

    /** The statements of `_rows_many`, five hundred paths each. */
    method SelectMissing(ws: Path, missing: seq<Path>, found: map<Path, CachedRow>, ghost all: set<Path>)
      returns (result: map<Path, CachedRow>)
      requires Elements(missing) == Missing(rows, ws, all)
      modifies this`rows, this`db
      ensures Loaded(codec, old(rows), old(db), rows, db, KeysOf(ws, all))
      ensures result == found + OnDisk(Decoded(codec, old(db)), ws, Elements(missing))
    {
      ghost var rows0, db0 := rows, db;
      ghost var disk := Decoded(codec, db0);
      var start := 0;
      result := found;
      NothingLoaded(codec, rows, db, KeysOf(ws, all));
      while start < |missing|
        invariant 0 <= start <= |missing|
        invariant Loaded(codec, rows0, db0, rows, db, KeysOf(ws, all))
        invariant result == found + OnDisk(disk, ws, Elements(missing[..start]))
      {
        var end := if start + SQLITE_BATCH < |missing| then start + SQLITE_BATCH else |missing|;
        result := SelectNext(ws, missing, start, end, result, found, all, rows0, db0);
        start := end;
      }
      assert missing[..start] == missing;
    }

    method SelectNext(ws: Path, missing: seq<Path>, start: nat, end: nat, result: map<Path, CachedRow>,
                      ghost found: map<Path, CachedRow>, ghost all: set<Path>, ghost rows0: Rows, ghost db0: Table)
      returns (result': map<Path, CachedRow>)
      requires start <= end <= |missing| && end <= start + SQLITE_BATCH && Elements(missing) == Missing(rows0, ws, all)
      requires Loaded(codec, rows0, db0, rows, db, KeysOf(ws, all))
      requires result == found + OnDisk(Decoded(codec, db0), ws, Elements(missing[..start]))
      modifies this`rows, this`db
      ensures Loaded(codec, rows0, db0, rows, db, KeysOf(ws, all))
      ensures result' == found + OnDisk(Decoded(codec, db0), ws, Elements(missing[..end]))
    {
      ghost var rows1, db1, chunk := rows, db, Elements(missing[start..end]);
      assert chunk <= Missing(rows0, ws, all);
      LoadedKeepsDisk(codec, rows0, db0, rows1, db1, KeysOf(ws, all));
      result' := SelectChunk(ws, missing[start..end], result);
      LoadedOn(codec, rows0, db0, rows1, db1, rows, db, KeysOf(ws, all), KeysOf(ws, chunk), KeysOf(ws, all));
      assert missing[..end] == missing[..start] + missing[start..end];
      assert Elements(missing[..end]) == Elements(missing[..start]) + chunk;
      OnDiskAdds(Decoded(codec, db0), ws, Elements(missing[..start]), chunk, found);
    }

    /** `_store_many`: every record is encoded before anything is written, so a failure writes nothing. */
    method StoreMany(ws: Path, records: seq<Record>) returns (failure: Option<CodecError>)
      requires Valid() && Truthful(sha, host.plan, host.now, Overlay(ws, records))
      modifies this`rows, this`db
      ensures Valid()
      ensures failure.None? <==> AllEncode(codec, records)
      ensures failure.Some? ==> rows == old(rows) && db == old(db) && FailsWith(codec, records, failure.value)
      ensures failure.None? ==> Storable(codec, Overlay(ws, records)) && rows == old(rows) + Overlay(ws, records)
                                && db == old(db) + Written(codec, Overlay(ws, records))
    {
      failure := None;
      var encoded: seq<Row> := [];
      while |encoded| < |records| && failure.None?
        invariant |encoded| <= |records|
        invariant failure.None? ==> forall i | 0 <= i < |encoded| :: codec.encode(RowOf(records[i])) == Ok(encoded[i])
        invariant failure.Some? ==> FailsWith(codec, records, failure.value)
        decreases |records| - |encoded|, failure.None?
      {
        match codec.encode(RowOf(records[|encoded|])) {
          case Err(e) => failure := Some(e);
          case Ok(row) => encoded := encoded + [row];
        }
      }
      if failure.None? {
        OverlayIsStorable(codec, ws, records);
        StoredIsSound(codec, sha, host.plan, host.now, rows, db, Overlay(ws, records));
        WriteAll(ws, records, encoded);
      }
    }

    /** The transaction, then the same rows in memory. */
    method WriteAll(ws: Path, records: seq<Record>, encoded: seq<Row>)
      requires |encoded| == |records| && forall i | 0 <= i < |records| ::
              codec.encode(RowOf(records[i])) == Ok(encoded[i])
      requires AllEncode(codec, records)
      modifies this`rows, this`db
      ensures Storable(codec, Overlay(ws, records))
      ensures rows == old(rows) + Overlay(ws, records) && db == old(db) + Written(codec, Overlay(ws, records))
    {
      ghost var rows0, db0 := rows, db;
      assert records[..0] == [];
      assert db == db0 + Written(codec, Overlay(ws, records[..0])) && rows == rows0 + Overlay(ws, records[..0]);
      for i := 0 to |records|
        invariant Storable(codec, Overlay(ws, records[..i])) && rows == rows0
        invariant db == db0 + Written(codec, Overlay(ws, records[..i]))
      {
        OverlayGrows(codec, ws, records, i, rows0, db0);
        db := db[(ws, records[i].rel) := encoded[i]];
      }
      for i := 0 to |records|
        invariant rows == rows0 + Overlay(ws, records[..i])
                && db == db0 + Written(codec, Overlay(ws, records[..|records|]))
        invariant Storable(codec, Overlay(ws, records[..|records|]))
      {
        OverlayGrows(codec, ws, records, i, rows0, db0);
        rows := rows[(ws, records[i].rel) := RowOf(records[i])];
      }
      assert records[..|records|] == records;
    }

    /** A file whose metadata was just sampled: its cached digest if the row still matches, else a stable hash. */
    method Resolve(ws: Path, rel: Path, m: Metadata, row: Option<CachedRow>)
      returns (r: Result<Record, ReadError>, hit: bool)
      requires host.Valid() && Honest(host.plan) && Stat(host.plan(host.now), ws + rel) == Some(m)
      requires row.Some? ==> True(sha, host.plan, host.now, (ws, rel), row.value)
      modifies host`now
      ensures old(host.now) <= host.now
      ensures r.Ok? ==>
              r.value.rel == rel && Observed(sha, host.plan(host.now), ws + rel, r.value.digest, r.value.metadata)
      ensures r.Err? ==> !hit && !Quiet(host.plan, old(host.now), host.now, ws + rel)
      ensures hit ==> r.Ok? && row == Some(RowOf(r.value))
      ensures hit <==> row.Some? && row.value.metadata == m
      ensures r.Ok? ==> (hit <==> host.now == old(host.now))
    {
      if row.Some? && row.value.metadata == m {
        HitIsCurrent(sha, host.plan, host.now, (ws, rel), row.value);
        return Ok(Record(rel, m, Digest(row.value.hash, m.size))), true;
      }
      ghost var start := host.now;
      var digested;
      ghost var samples;
      digested, samples := HashStable(host, ws + rel, sha, m, MAX_ATTEMPTS, start);
      hit := false;
      match digested {
        case Ok((digest, metadata)) =>
          r := Ok(Record(rel, metadata, digest));
        case Err(e) =>
          r := Err(e);
          if Quiet(host.plan, start, host.now, ws + rel) {
            QuietStays(host.plan, start, host.now, ws + rel, start);
            if e == Unstable {
              QuietSettles(host.plan, start, host.now, ws + rel, samples);
            }
          }
      }
    }

    /**
     `digest`: with or without `force`, what it returns is the digest of the content its last
     sample saw; while the file holds still it is what digesting with no cache would give. It takes
     one sample and no reading at all exactly when it may look for a row and finds one with the
     metadata just sampled; afterwards there is such a row in any case.
     */
    method DigestOne(ws: Path, rel: Path, force: bool) returns (out: Result<Digest, StoreError>)
      requires Valid()
      modifies this`rows, this`db, host`now
      ensures Valid() && old(host.now) < host.now
      ensures out.Ok? ==>
              Present(host.plan(host.now), ws + rel) && out.value == FileDigest(sha,
              Content(host.plan(host.now), ws + rel))
      ensures Quiet(host.plan, old(host.now), host.now, ws + rel) ==>
              out == DigestReference(codec, sha, host.plan(host.now), ws + rel)
      ensures out.Ok? ==>
              (host.now == old(host.now) + 1 <==>
               Fresh(Usable(force, codec, old(rows), old(db), (ws, rel)),
                     Stat(host.plan(old(host.now) + 1), ws + rel)))
      ensures out.Ok? ==> Kept(ws, rel, out.value)
    {
      ghost var start := host.now;
      var sample := Sample(ws + rel);
      if sample.None? {
        out := Err(Reading(NotFound));
      } else {
        ghost var sampled := host.now;
        out := DigestSampled(ws, rel, force, sample.value);
        QuietAfter(host.plan, start, sampled, host.now, ws + rel);
      }
    }

    /** The metadata of a path; what is cached stays true. */
    method Sample(p: Path) returns (m: Option<Metadata>)
      requires Valid()
      modifies host`now
      ensures Valid() && host.now == old(host.now) + 1 && m == Stat(host.plan(host.now), p)
      ensures m.None? ==> !Present(host.plan(host.now), p)
    {
      m := host.StatFile(p);
      SoundLater(codec, sha, host.plan, old(host.now), host.now, rows, db);
    }

    /** The same once the metadata has been sampled. */
    method DigestSampled(ws: Path, rel: Path, force: bool, m: Metadata) returns (out: Result<Digest, StoreError>)
      requires Valid() && Stat(host.plan(host.now), ws + rel) == Some(m)
      modifies this`rows, this`db, host`now
      ensures Valid() && old(host.now) <= host.now
      ensures out.Ok? ==>
              Present(host.plan(host.now), ws + rel) && out.value == FileDigest(sha,
              Content(host.plan(host.now), ws + rel))
      ensures Quiet(host.plan, old(host.now), host.now, ws + rel) ==>
              out == DigestReference(codec, sha, host.plan(host.now), ws + rel)
      ensures out.Ok? ==>
              (host.now == old(host.now) <==> Fresh(Usable(force, codec, old(rows), old(db), (ws, rel)), Some(m)))
      ensures out.Ok? ==> Kept(ws, rel, out.value)
    {
      var row := RowUnless(force, ws, rel);
      ghost var sampled := host.now;
      var r, hit := Resolve(ws, rel, m, row);
      SoundLater(codec, sha, host.plan, sampled, host.now, rows, db);
      match r {
        case Err(e) =>
          out := Err(Reading(e));
        case Ok(record) =>
          if hit {
            out := Ok(record.digest);
          } else {
            out := Keep(ws, record);
          }
      }
    }

    /** Memory holds the row of this digest, with the metadata the path shows. */
    ghost predicate Kept(ws: Path, rel: Path, digest: Digest)
      reads this, host
    {
      && (ws, rel) in rows && rows[(ws, rel)].hash == digest.hash
      && Stat(host.plan(host.now), ws + rel) == Some(rows[(ws, rel)].metadata)
    }

    /** The row of a file, unless the caller forbids to use it. */
    method RowUnless(force: bool, ws: Path, rel: Path) returns (row: Option<CachedRow>)
      requires Valid()
      modifies this`rows, this`db
      ensures Valid()
      ensures row == Usable(force, codec, old(rows), old(db), (ws, rel))
      ensures row.Some? ==> True(sha, host.plan, host.now, (ws, rel), row.value)
      ensures row.Some? ==> (ws, rel) in rows && rows[(ws, rel)] == row.value
    {
      row := None;
      if !force {
        ghost var rows0, db0 := rows, db;
        row := LookUp((ws, rel));
        if row.Some? {
          AnswerIsSound(codec, sha, host.plan, host.now, rows0, db0, (ws, rel));
        }
      }
    }

    /** Store what was just observed, and answer with it. */
    method Keep(ws: Path, record: Record) returns (out: Result<Digest, StoreError>)
      requires Valid()
      requires Observed(sha, host.plan(host.now), ws + record.rel, record.digest, record.metadata)
      modifies this`rows, this`db
      ensures Valid()
      ensures out == match codec.encode(RowOf(record)) case Ok(_) => Ok(record.digest) case Err(e) => Err(Codec(e))
      ensures out.Ok? ==> Kept(ws, record.rel, record.digest)
    {
      OneRecordOverlay(sha, host.plan, host.now, ws, record);
      var failure := StoreMany(ws, [record]);
      out := if failure.Some? then Err(Codec(failure.value)) else Ok(record.digest);
    }

    /** Sample one file of a batch and resolve it against the row looked up before the batch began. */
    method NextFile(ws: Path, rel: Path, row: Option<CachedRow>) returns (r: Result<Record, ReadError>, hit: bool)
      requires Valid() && (row.Some? ==> True(sha, host.plan, host.now, (ws, rel), row.value))
      modifies host`now
      ensures Valid() && old(host.now) < host.now
      ensures r.Ok? ==>
              r.value.rel == rel && Observed(sha, host.plan(host.now), ws + rel, r.value.digest, r.value.metadata)
      ensures r.Err? ==> !hit
      ensures r.Ok? ==> (hit <==> Fresh(row, Stat(host.plan(old(host.now) + 1), ws + rel)))
      ensures r.Ok? ==> (hit <==> host.now == old(host.now) + 1)
      ensures r.Err? && Quiet(host.plan, old(host.now), host.now, ws + rel) ==>
                r == Err(NotFound) && !Present(host.plan(host.now), ws + rel)
      ensures hit ==> row == Some(RowOf(r.value))
    {
      ghost var start := host.now;
      var sample := host.StatFile(ws + rel);
      ghost var sampled := host.now;
      if row.Some? {
        TrueStays(sha, host.plan, start, sampled, (ws, rel), row.value);
      }
      if sample.None? {
        r, hit := Err(NotFound), false;
      } else {
        r, hit := Resolve(ws, rel, sample.value, row);
        QuietAfter(host.plan, start, sampled, host.now, ws + rel);
      }
      SoundLater(codec, sha, host.plan, start, host.now, rows, db);
    }

    /**
     `digest_many_info`: every answer is that of a moment during the call; while the files hold
     still, the answer with the cache is the answer without it, error for error. It takes one sample
     a file and no reading exactly when every sample finds the metadata of that file's row.
     */
    method DigestMany(ws: Path, rels: seq<Path>, force: bool)
      returns (out: Result<map<Path, (Digest, bool)>, StoreError>)
      requires Valid()
      modifies this`rows, this`db, host`now
      ensures Valid() && old(host.now) <= host.now
      ensures out.Ok? ==> out.value.Keys == Elements(rels)
      ensures out.Ok? ==> forall rel :: rel in out.value ==>
              SeenDuring(sha, host.plan, old(host.now), host.now, ws + rel, out.value[rel])
      ensures QuietAll(host.plan, old(host.now), host.now, ws, rels) ==>
              out == BatchReference(codec, sha, host.plan(old(host.now)), ws, rels)
      ensures out.Ok? ==>
              Timed(host.plan, old(host.now), host.now, ws, rels, |rels|,
                    if force then map[] else Answers(old(rows), Decoded(codec, old(db)), ws, Elements(rels)))
    {
      var table: map<Path, CachedRow> := map[];
      ghost var start := host.now;
      if !force {
        AnswersAreTrue(codec, sha, host.plan, host.now, rows, db, ws, Elements(rels));
        table := LookUpMany(ws, rels);
      }
      var scan, changed := ScanFiles(ws, rels, table);
      match scan {
        case Err(e) =>
          out := Err(Reading(e));
        case Ok(result) =>
          OverlayIsTrue(sha, host.plan, host.now, ws, changed);
          var failure := StoreMany(ws, changed);
          out := if failure.None? then Ok(result) else Err(Codec(failure.value));
          if QuietAll(host.plan, start, host.now, ws, rels) {
            BatchDone(codec, sha, host.plan(start), ws, rels, result, changed, failure);
          }
      }
    }

    /** The loop of `digest_many_info`: one sample per file, then its cached row or a stable hash. */
    method ScanFiles(ws: Path, rels: seq<Path>, table: map<Path, CachedRow>)
      returns (scan: Result<map<Path, (Digest, bool)>, ReadError>, changed: seq<Record>)
      requires Valid() && TableTrue(codec, sha, host.plan, host.now, ws, table)
      modifies host`now
      ensures Valid() && old(host.now) <= host.now && RecordsTrue(sha, host.plan, host.now, ws, changed)
      ensures scan.Ok? ==> scan.value.Keys == Elements(rels)
      ensures scan.Ok? ==> forall rel :: rel in scan.value ==>
              SeenDuring(sha, host.plan, old(host.now), host.now, ws + rel, scan.value[rel])
      ensures QuietAll(host.plan, old(host.now), host.now, ws, rels) ==>
        match scan
        case Ok(result) => BatchAgrees(codec, sha, host.plan(old(host.now)), ws, rels, result, changed)
        case Err(e) => e == NotFound && exists rel :: rel in rels && !Present(host.plan(old(host.now)), ws + rel)
      ensures scan.Ok? ==> Timed(host.plan, old(host.now), host.now, ws, rels, |rels|, table)
    {
      var i := 0;
      ghost var start := host.now;
      scan, changed := Ok(map[]), [];
      assert rels[..0] == [];
      while i < |rels| && scan.Ok?
        invariant 0 <= i <= |rels| && start <= host.now && Valid()
        invariant Scanning(ws, rels, i, table, start, scan, changed)
      {
        scan, changed := ScanNext(ws, rels, i, table, scan.value, changed, start);
        i := i + 1;
      }
      ScanDone(ws, rels, i, table, start, scan, changed);
    }

    lemma ScanDone(ws: Path, rels: seq<Path>, i: nat, table: map<Path, CachedRow>, start: nat,
        scan: Result<map<Path, (Digest, bool)>, ReadError>, changed: seq<Record>)
      requires i <= |rels| && (scan.Ok? ==> i == |rels|) && Scanning(ws, rels, i, table, start, scan, changed)
      ensures RecordsTrue(sha, host.plan, host.now, ws, changed)
      ensures scan.Ok? ==> scan.value.Keys == Elements(rels)
      ensures scan.Ok? ==> forall rel :: rel in scan.value ==>
              SeenDuring(sha, host.plan, start, host.now, ws + rel, scan.value[rel])
      ensures QuietAll(host.plan, start, host.now, ws, rels) ==>
        match scan
        case Ok(result) => BatchAgrees(codec, sha, host.plan(start), ws, rels, result, changed)
        case Err(e) => e == NotFound && exists rel :: rel in rels && !Present(host.plan(start), ws + rel)
      ensures scan.Ok? ==> Timed(host.plan, start, host.now, ws, rels, |rels|, table)
    {
      assert rels[..|rels|] == rels;
    }

    /** Where the loop over the files stands before file `i`. */
    ghost predicate Scanning(ws: Path, rels: seq<Path>, i: nat, table: map<Path, CachedRow>, start: nat,
        scan: Result<map<Path, (Digest, bool)>, ReadError>, changed: seq<Record>)
      requires i <= |rels|
      reads this, host
    {
      && TableTrue(codec, sha, host.plan, host.now, ws, table)
      && RecordsTrue(sha, host.plan, host.now, ws, changed)
      && (scan.Ok? ==> Scanned(sha, host.plan, start, host.now, ws, rels[..i], scan.value)
                       && Timed(host.plan, start, host.now, ws, rels, i, table))
      && (QuietAll(host.plan, start, host.now, ws, rels) ==>
            QuietScan(codec, sha, host.plan(start), ws, rels, i, scan, changed))
    }

    /** The next file, and the time it takes. */
    method NextTimed(ws: Path, rels: seq<Path>, i: nat, table: map<Path, CachedRow>, ghost start: nat)
      returns (r: Result<Record, ReadError>, hit: bool)
      requires i < |rels| && Valid() && Timed(host.plan, start, host.now, ws, rels, i, table)
      requires rels[i] in table ==> True(sha, host.plan, host.now, (ws, rels[i]), table[rels[i]])
      modifies host`now
      ensures Valid() && old(host.now) < host.now
      ensures r.Ok? ==>
              r.value.rel == rels[i]
              && Observed(sha, host.plan(host.now), ws + rels[i], r.value.digest, r.value.metadata)
      ensures r.Err? ==> !hit
      ensures r.Err? && Quiet(host.plan, old(host.now), host.now, ws + rels[i]) ==>
                r == Err(NotFound) && !Present(host.plan(host.now), ws + rels[i])
      ensures hit ==> rels[i] in table && table[rels[i]] == RowOf(r.value)
      ensures r.Ok? ==> Timed(host.plan, start, host.now, ws, rels, i + 1, table)
    {
      ghost var before := host.now;
      r, hit := NextFile(ws, rels[i], if rels[i] in table then Some(table[rels[i]]) else None);
      if r.Ok? {
        TimedNext(host.plan, start, before, host.now, ws, rels, i, table);
      }
    }

    method ScanNext(ws: Path, rels: seq<Path>, i: nat, table: map<Path, CachedRow>, result: map<Path, (Digest, bool)>,
        changed: seq<Record>, ghost start: nat)
      returns (scan: Result<map<Path, (Digest, bool)>, ReadError>, changed': seq<Record>)
      requires i < |rels| && start <= host.now && Valid()
      requires TableTrue(codec, sha, host.plan, host.now, ws, table)
              && RecordsTrue(sha, host.plan, host.now, ws, changed)
      requires Scanned(sha, host.plan, start, host.now, ws, rels[..i], result)
      requires Timed(host.plan, start, host.now, ws, rels, i, table)
      requires QuietAll(host.plan, start, host.now, ws, rels) ==>
              BatchAgrees(codec, sha, host.plan(start), ws, rels[..i], result, changed)
      modifies host`now
      ensures old(host.now) <= host.now && Valid()
      ensures TableTrue(codec, sha, host.plan, host.now, ws, table)
              && RecordsTrue(sha, host.plan, host.now, ws, changed')
      ensures scan.Ok? ==> Scanned(sha, host.plan, start, host.now, ws, rels[..i + 1], scan.value)
      ensures QuietAll(host.plan, start, host.now, ws, rels) ==>
              QuietScan(codec, sha, host.plan(start), ws, rels, i + 1, scan, changed')
      ensures scan.Ok? ==> Timed(host.plan, start, host.now, ws, rels, i + 1, table)
    {
      var rel := rels[i];
      ghost var before := host.now;
      var r, hit := NextTimed(ws, rels, i, table, start);
      match r {
        case Err(e) =>
          scan, changed' := Err(e), changed;
          ScanStops(codec, sha, host.plan, start, before, host.now, ws, rels, i, table, changed, e);
        case Ok(record) =>
          scan, changed' := Ok(result[rel := (record.digest, record.metadata.executable)]),
              if hit then changed else changed + [record];
          ScanGoesOn(codec, sha, host.plan, start, before, host.now, ws, rels, i, table, result, changed, record, hit);
      }
    }

    /** `forget`: neither level answers for the file any more; every other answer stays. */
    method Forget(ws: Path, rel: Path)
      requires Valid()
      modifies this`rows, this`db
      ensures Valid() && rows == old(rows) - {(ws, rel)} && db == old(db) - {(ws, rel)}
      ensures Answer(rows, Decoded(codec, db), (ws, rel)) == None
      ensures forall k :: k != (ws, rel) ==>
              Answer(rows, Decoded(codec, db), k) == Answer(old(rows), Decoded(codec, old(db)), k)
    {
      RemovedIsSound(codec, sha, host.plan, host.now, rows, db, {(ws, rel)});
      db := db - {(ws, rel)};
      rows := rows - {(ws, rel)};
    }

    /** `clear_workspace`: the same for every file of a workspace. */
    method ClearWorkspace(ws: Path)
      requires Valid()
      modifies this`rows, this`db
      ensures Valid()
      ensures forall k :: Answer(rows, Decoded(codec, db), k) == if k.0 == ws then None else Answer(old(rows),
              Decoded(codec, old(db)), k)
      ensures db == old(db) - KeysIn(old(db).Keys, ws) && rows == old(rows) - KeysIn(old(rows).Keys, ws)
    {
      var stored, cached := KeysIn(db.Keys, ws), KeysIn(rows.Keys, ws);
      ClearedIsSound(codec, sha, host.plan, host.now, rows, db, ws);
      db := db - stored;
      PopAll(cached);
    }

    method PopAll(cached: set<Key>)
      modifies this`rows
      ensures rows == old(rows) - cached
    {
      var todo := cached;
      assert rows == old(rows) - (cached - todo);
      while todo != {}
        invariant todo <= cached && rows == old(rows) - (cached - todo)
        decreases todo
      {
        var k :| k in todo;
        rows := rows - {k};
        assert cached - (todo - {k}) == (cached - todo) + {k};
        todo := todo - {k};
      }
      assert cached - todo == cached;
    }
  }
}
