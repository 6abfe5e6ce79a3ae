/**
 The persistent file-digest cache: rows keyed by workspace and path, held in memory over a
 database whose rows may be corrupt, and trusted only while the file's metadata matches.
 */
module FileRows {
  import opened Base
  import opened Encoding
  import opened HostFiles
  import opened StableReads
  import opened MetadataCodecs

  // ---------------------------------------------------------------- rows

  type SqliteInteger = n: int | IsSqliteInteger(n)
  type SqliteNatural = n: int | 0 <= n && IsSqliteInteger(n)

  /** One database row, with the column constraints of the schema. */
  datatype Row = Row(
    device: SqliteNatural, inode: SqliteNatural, size: SqliteNatural, mtime: SqliteInteger, ctime: SqliteInteger,
    executable: bool, overflow: Option<Bytes>, hash: Hash32)

  datatype CachedRow = CachedRow(metadata: Metadata, hash: Hash32)

  function FieldsOf(m: Metadata): Fields {
    [m.device, m.inode, m.size, m.mtime, m.ctime]
  }

  function MetadataOf(f: Fields, executable: bool): Metadata {
    Metadata(f[0], f[1], f[2], f[3], f[4], executable)
  }

  predicate NonNegative(m: Metadata) {
    m.device >= 0 && m.inode >= 0 && m.size >= 0
  }

  /** `_encode_metadata`, with the digest column. */
  function EncodeRow(c: CachedRow): Result<Row, CodecError> {
    var f := FieldsOf(c.metadata);
    if !NonNegative(c.metadata) then Err(Negative)
    else
      EncodeFailure(f);
      match Encode(f)
      case Err(e) => Err(e)
      case Ok(Columns(s, overflow)) => Ok(Row(s[0], s[1], s[2], s[3], s[4], c.metadata.executable, overflow, c.hash))
  }

  /** A row is refused exactly for a negative device, inode or size, or for a payload beyond its bound. */
  lemma RowRefusals(c: CachedRow)
    ensures EncodeRow(c) == Err(Negative) <==> exists i :: 0 <= i < 3 && FieldsOf(c.metadata)[i] < 0
    ensures EncodeRow(c) == Err(TooLarge) <==>
            (forall i | 0 <= i < 3 :: FieldsOf(c.metadata)[i] >= 0) && Encode(FieldsOf(c.metadata)).Err?
    ensures EncodeRow(c).Err? ==> EncodeRow(c).error == Negative || EncodeRow(c).error == TooLarge
  {
    var f := FieldsOf(c.metadata);
    assert f[0] == c.metadata.device && f[1] == c.metadata.inode && f[2] == c.metadata.size;
  }

  /** `_decode_row`. */
  function DecodeRow(r: Row): Result<CachedRow, CodecError> {
    match r.overflow
    case None => Ok(CachedRow(Metadata(r.device, r.inode, r.size, r.mtime, r.ctime, r.executable), r.hash))
    case Some(payload) =>
      match Decode(payload)
      case Err(e) => Err(e)
      case Ok(f) =>
        var m := MetadataOf(f, r.executable);
        if NonNegative(m) then Ok(CachedRow(m, r.hash)) else Err(Negative)
  }

  /** A stored row reads back as what was stored exactly when its integers are short enough. */
  lemma RowRoundTrip(c: CachedRow)
    requires EncodeRow(c).Ok?
    ensures DecodeRow(EncodeRow(c).value) == Ok(c) <==> AllShort(FieldsOf(c.metadata))
    ensures DecodeRow(EncodeRow(c).value).Ok? ==> DecodeRow(EncodeRow(c).value) == Ok(c)
  {
    var f := FieldsOf(c.metadata);
    if AllSqlite(f) {
      forall i | 0 <= i < 5 ensures Short(f[i]) {
        SqliteIsShort(f[i]);
      }
    } else {
      DecodeOfEncode(f);
    }
  }

  lemma FieldsRoundTrip(f: Fields, executable: bool)
    ensures FieldsOf(MetadataOf(f, executable)) == f
  {
  }

  /** Every decodable row could have been stored by the encoder, and reads back again. */
  lemma DecodedIsStorable(r: Row)
    requires DecodeRow(r).Ok?
    ensures EncodeRow(DecodeRow(r).value).Ok?
    ensures DecodeRow(EncodeRow(DecodeRow(r).value).value) == DecodeRow(r)
  {
    match r.overflow {
      case None =>
        PlainRowIsStorable(r);
      case Some(payload) =>
        EncodeOfDecode(payload);
        OverflowRowIsStorable(r, payload, Decode(payload).value);
    }
  }

  lemma PlainRowIsStorable(r: Row)
    requires r.overflow.None?
    ensures EncodeRow(DecodeRow(r).value) == Ok(r)
  {
    var f := FieldsOf(DecodeRow(r).value.metadata);
    assert Encode(f) == Ok(Columns(f, None));
  }

  lemma OverflowRowIsStorable(r: Row, payload: Bytes, f: Fields)
    requires r.overflow == Some(payload) && Decode(payload) == Ok(f)
    requires Encode(f) == Ok(Columns(Placeholders(f), Some(payload))) && NonNegative(MetadataOf(f, r.executable))
    ensures EncodeRow(CachedRow(MetadataOf(f, r.executable), r.hash)).Ok?
    ensures DecodeRow(EncodeRow(CachedRow(MetadataOf(f, r.executable), r.hash)).value) ==
            Ok(CachedRow(MetadataOf(f, r.executable), r.hash))
  {
    FieldsRoundTrip(f, r.executable);
    var e := EncodeRow(CachedRow(MetadataOf(f, r.executable), r.hash));
    assert e.value.overflow == Some(payload) && e.value.executable == r.executable && e.value.hash == r.hash;
  }

  /** Encoding non-negative metadata fails only for lack of room. */
  lemma EncodeRowFailure(c: CachedRow)
    requires NonNegative(c.metadata) && EncodeRow(c).Err?
    ensures EncodeRow(c) == Err(TooLarge)
  {
  }

  // ---------------------------------------------------------------- the two levels

  /** How rows are written and read; the store itself needs no more than the three laws. */
  datatype RowCodec = RowCodec(encode: CachedRow -> Result<Row, CodecError>,
      decode: Row -> Result<CachedRow, CodecError>)
  {
    ghost predicate Lawful() {
      && (forall c: CachedRow :: encode(c).Ok? && decode(encode(c).value).Ok? ==> decode(encode(c).value) == Ok(c))
      && (forall r: Row :: decode(r).Ok? ==>
            encode(decode(r).value).Ok? && decode(encode(decode(r).value).value) == decode(r))
      && (forall c: CachedRow :: NonNegative(c.metadata) && encode(c).Err? ==> encode(c) == Err(TooLarge))
    }

    predicate Readable(c: CachedRow) {
      encode(c).Ok? && decode(encode(c).value).Ok?
    }

    predicate Corrupt(r: Row) {
      decode(r).Err?
    }
  }

  function MetadataRowCodec(): RowCodec {
    RowCodec(EncodeRow, DecodeRow)
  }

  /** The real codec is lawful; it can read back exactly the rows with short integers. */
  lemma MetadataRowCodecIsLawful()
    ensures MetadataRowCodec().Lawful()
    ensures forall c :: EncodeRow(c).Ok? ==> (MetadataRowCodec().Readable(c) <==> AllShort(FieldsOf(c.metadata)))
  {
    var codec := MetadataRowCodec();
    forall c: CachedRow | codec.encode(c).Ok?
      ensures codec.Readable(c) <==> AllShort(FieldsOf(c.metadata))
      ensures codec.Readable(c) ==> codec.decode(codec.encode(c).value) == Ok(c)
    {
      RowRoundTrip(c);
    }
    forall r: Row | codec.decode(r).Ok?
      ensures codec.encode(codec.decode(r).value).Ok? && codec.decode(codec.encode(codec.decode(r).value).value) ==
              codec.decode(r)
    {
      DecodedIsStorable(r);
    }
    forall c: CachedRow | NonNegative(c.metadata) && codec.encode(c).Err? ensures codec.encode(c) == Err(TooLarge) {
      EncodeRowFailure(c);
    }
  }

  /** Workspace and relative path; the file itself is at their concatenation. */
  type Key = (Path, Path)
  type Rows = map<Key, CachedRow>
  type Table = map<Key, Row>

  /** The decodable rows of the database. */
  function Decoded(codec: RowCodec, db: Table): Rows {
    map k | k in db && !codec.Corrupt(db[k]) :: codec.decode(db[k]).value
  }

  /** What the store answers: the row in memory, else the row on disk if it decodes. */
  function Answer(rows: Rows, disk: Rows, k: Key): Option<CachedRow> {
    if k in rows then Some(rows[k]) else if k in disk then Some(disk[k]) else None
  }

  /** Memory agrees with the decodable rows on disk, but for rows the codec cannot read back. */
  ghost predicate Agree(codec: RowCodec, rows: Rows, disk: Rows) {
    forall k :: k in rows ==>
        codec.encode(rows[k]).Ok? && if codec.Readable(rows[k]) then k in disk && disk[k] == rows[k] else k !in disk
  }

  /** The row describes one past moment of its file. */
  ghost predicate True(sha: Sha256, plan: Plan, now: nat, k: Key, row: CachedRow) {
    exists t | 0 <= t <= now :: Describes(sha, plan(t), k.0 + k.1, row)
  }

  ghost predicate Describes(sha: Sha256, d: Disk, p: Path, row: CachedRow) {
    Stat(d, p) == Some(row.metadata) && row.hash == FileDigest(sha, Content(d, p)).hash
  }

  ghost predicate Truthful(sha: Sha256, plan: Plan, now: nat, rows: Rows) {
    forall k :: k in rows ==> True(sha, plan, now, k, rows[k])
  }

  /** Both levels agree, and every row of either is true. */
  ghost predicate Sound(codec: RowCodec, sha: Sha256, plan: Plan, now: nat, rows: Rows, db: Table) {
    && codec.Lawful() && Agree(codec, rows, Decoded(codec, db))
    && Truthful(sha, plan, now, rows) && Truthful(sha, plan, now, Decoded(codec, db))
  }

  /** A true row whose metadata matches the file now has the digest of the file now. */
  lemma HitIsCurrent(sha: Sha256, plan: Plan, now: nat, k: Key, row: CachedRow)
    requires Honest(plan) && True(sha, plan, now, k, row) && Stat(plan(now), k.0 + k.1) == Some(row.metadata)
    ensures row.metadata.size >= 0 && Observed(sha, plan(now), k.0 + k.1, Digest(row.hash, row.metadata.size),
            row.metadata)
  {
    var t: nat :| 0 <= t <= now && Describes(sha, plan(t), k.0 + k.1, row);
    assert SameFile(plan(t), plan(now), k.0 + k.1);
  }

  // ---------------------------------------------------------------- looking rows up

  function Restricted(rows: Rows, keys: set<Key>): Rows {
    map k | k in keys && k in rows :: rows[k]
  }

  /** `copied` rows were read from disk into memory, and `gone` corrupt rows deleted. */
  ghost predicate Step(codec: RowCodec, rows: Rows, db: Table, rows': Rows, db': Table, copied: set<Key>,
      gone: set<Key>) {
    && rows' == rows + Restricted(Decoded(codec, db), copied)
    && (forall k :: k in gone ==> k in db && codec.Corrupt(db[k]) && k !in rows)
    && db' == db - gone
  }

  /** Lookups of these keys did nothing but load and discard. */
  ghost predicate Loaded(codec: RowCodec, rows: Rows, db: Table, rows': Rows, db': Table, keys: set<Key>) {
    exists copied, gone | copied <= keys && gone <= keys :: Step(codec, rows, db, rows', db', copied, gone)
  }

  /** Loading keeps memory and disk in agreement, and true. */
  lemma LoadedIsSound(codec: RowCodec, sha: Sha256, plan: Plan, now: nat, rows: Rows, db: Table, rows': Rows,
      db': Table, keys: set<Key>)
    requires Sound(codec, sha, plan, now, rows, db) && Loaded(codec, rows, db, rows', db', keys)
    ensures Sound(codec, sha, plan, now, rows', db')
  {
    LoadedKeepsDisk(codec, rows, db, rows', db', keys);
    LoadedAgrees(codec, rows, db, rows');
  }

  lemma LoadedAgrees(codec: RowCodec, rows: Rows, db: Table, rows': Rows)
    requires codec.Lawful() && Agree(codec, rows, Decoded(codec, db))
    requires forall k :: k in rows' ==>
            if k in rows then rows'[k] == rows[k] else k in Decoded(codec, db) && rows'[k] == Decoded(codec, db)[k]
    ensures Agree(codec, rows', Decoded(codec, db))
  {
    forall k | k in rows' && k !in rows ensures codec.Readable(rows'[k]) {
      assert codec.decode(db[k]) == Ok(rows'[k]);
    }
  }

  /** Loading and discarding change no answer. */
  lemma LoadingIsInvisible(codec: RowCodec, rows: Rows, db: Table, rows': Rows, db': Table, keys: set<Key>, k: Key)
    requires Agree(codec, rows, Decoded(codec, db)) && Loaded(codec, rows, db, rows', db', keys)
    ensures Answer(rows', Decoded(codec, db'), k) == Answer(rows, Decoded(codec, db), k)
  {
  }

  lemma LoadIsStep(codec: RowCodec, rows: Rows, db: Table, k: Key)
    requires k in db && !codec.Corrupt(db[k])
    ensures Loaded(codec, rows, db, rows[k := codec.decode(db[k]).value], db, {k})
  {
    var rows' := rows[k := codec.decode(db[k]).value];
    assert rows' == rows + Restricted(Decoded(codec, db), {k});
    assert db - {} == db;
    assert Step(codec, rows, db, rows', db, {k}, {});
  }

  lemma DiscardIsStep(codec: RowCodec, rows: Rows, db: Table, k: Key)
    requires k in db && codec.Corrupt(db[k]) && k !in rows
    ensures Loaded(codec, rows, db, rows - {k}, db - {k}, {k})
    ensures k !in Decoded(codec, db)
  {
    assert rows - {k} == rows + Restricted(Decoded(codec, db), {});
    assert Step(codec, rows, db, rows - {k}, db - {k}, {}, {k});
  }

  lemma LoadedOn(
    codec: RowCodec, rows0: Rows, db0: Table, rows1: Rows, db1: Table, rows2: Rows, db2: Table, first: set<Key>,
        second: set<Key>, keys: set<Key>)
    requires Loaded(codec, rows0, db0, rows1, db1, first) && Loaded(codec, rows1, db1, rows2, db2, second)
    requires first <= keys && second <= keys
    ensures Loaded(codec, rows0, db0, rows2, db2, keys)
  {
    var copied, gone :| copied <= first && gone <= first && Step(codec, rows0, db0, rows1, db1, copied, gone);
    var copied', gone' :| copied' <= second && gone' <= second && Step(codec, rows1, db1, rows2, db2, copied', gone');
    DiscardingKeepsDisk(codec, db0, gone);
    RestrictedTwice(rows0, Decoded(codec, db0), copied, copied');
    assert db2 == db0 - (gone + gone');
    assert Step(codec, rows0, db0, rows2, db2, copied + copied', gone + gone');
  }

  lemma DiscardingKeepsDisk(codec: RowCodec, db: Table, gone: set<Key>)
    requires forall k :: k in gone ==> k in db && codec.Corrupt(db[k])
    ensures Decoded(codec, db - gone) == Decoded(codec, db)
  {
  }

  lemma RestrictedTwice(rows: Rows, disk: Rows, a: set<Key>, b: set<Key>)
    ensures (rows + Restricted(disk, a)) + Restricted(disk, b) == rows + Restricted(disk, a + b)
  {
  }

  lemma NothingLoaded(codec: RowCodec, rows: Rows, db: Table, keys: set<Key>)
    ensures Loaded(codec, rows, db, rows, db, keys)
  {
    assert rows == rows + Restricted(Decoded(codec, db), {}) && db == db - {};
    assert Step(codec, rows, db, rows, db, {}, {});
  }

  lemma LoadedKeepsDisk(codec: RowCodec, rows: Rows, db: Table, rows': Rows, db': Table, keys: set<Key>)
    requires Loaded(codec, rows, db, rows', db', keys)
    ensures Decoded(codec, db') == Decoded(codec, db)
    ensures forall k :: k in db && k !in keys ==> k in db' && db'[k] == db[k]
    ensures forall k :: k in db' ==> k in db && db'[k] == db[k]
    ensures forall k :: k in rows' && k !in rows ==> k in Decoded(codec, db) && rows'[k] == Decoded(codec, db)[k]
    ensures Agree(codec, rows, Decoded(codec, db)) ==> forall k :: k in rows ==> k in rows' && rows'[k] == rows[k]
  {
    var copied, gone :| copied <= keys && gone <= keys && Step(codec, rows, db, rows', db', copied, gone);
    DiscardingKeepsDisk(codec, db, gone);
  }

  function KeysOf(ws: Path, rels: set<Path>): set<Key> {
    set rel | rel in rels :: (ws, rel)
  }

  function OnDisk(disk: Rows, ws: Path, rels: set<Path>): map<Path, CachedRow> {
    map rel | rel in rels && (ws, rel) in disk :: disk[(ws, rel)]
  }

  /** Paths without a stored row contribute nothing. */
  lemma OnDiskStarts(codec: RowCodec, db: Table, ws: Path, todo: set<Path>, all: set<Path>)
    requires forall rel :: rel in all - todo ==> (ws, rel) !in db
    ensures OnDisk(Decoded(codec, db), ws, all - todo) == map[]
  {
  }

  lemma OnDiskGrows(disk: Rows, ws: Path, done: set<Path>, rel: Path, found: map<Path, CachedRow>)
    ensures found + OnDisk(disk, ws, done + {rel}) ==
      if (ws, rel) in disk then (found + OnDisk(disk, ws, done))[rel := disk[(ws, rel)]] else found + OnDisk(disk, ws,
          done)
  {
  }

  /** Memory holds nothing for these paths that disk does not. */
  ghost predicate NotHidden(rows: Rows, disk: Rows, ws: Path, rels: set<Path>) {
    forall rel :: rel in rels && (ws, rel) in rows ==> (ws, rel) in disk && disk[(ws, rel)] == rows[(ws, rel)]
  }

  ghost predicate NoneCorrupt(codec: RowCodec, db: Table, ws: Path, rels: set<Path>) {
    forall rel :: rel in rels && (ws, rel) in db ==> !codec.Corrupt(db[(ws, rel)])
  }

  lemma TakeMore(s: seq<Path>, i: nat)
    requires i < |s|
    ensures s[..i + 1] == s[..i] + [s[i]]
  {
  }

  /** The requested paths with no row in memory. */
  function Missing(rows: Rows, ws: Path, rels: set<Path>): set<Path> {
    set rel | rel in rels && (ws, rel) !in rows
  }

  lemma OnDiskAdds(disk: Rows, ws: Path, done: set<Path>, more: set<Path>, found: map<Path, CachedRow>)
    ensures found + OnDisk(disk, ws, done + more) == (found + OnDisk(disk, ws, done)) + OnDisk(disk, ws, more)
  {
  }

  lemma AnswersSplit(rows: Rows, disk: Rows, ws: Path, rels: set<Path>)
    ensures Answers(rows, disk, ws, rels) == Answers(rows, map[], ws, rels) + OnDisk(disk, ws, Missing(rows, ws, rels))
  {
  }

  /** Exactly the answers there are for the requested paths. */
  function Answers(rows: Rows, disk: Rows, ws: Path, rels: set<Path>): map<Path, CachedRow> {
    map rel | rel in rels && Answer(rows, disk, (ws, rel)).Some? :: Answer(rows, disk, (ws, rel)).value
  }

  // ---------------------------------------------------------------- storing rows

  datatype Record = Record(rel: Path, metadata: Metadata, digest: Digest)

  function RowOf(r: Record): CachedRow {
    CachedRow(r.metadata, r.digest.hash)
  }

  /** What a batch writes: the last record of each path. */
  function Overlay(ws: Path, records: seq<Record>): Rows {
    if records == [] then map[]
    else
      var last := records[|records| - 1];
      Overlay(ws, records[..|records| - 1])[(ws, last.rel) := RowOf(last)]
  }

  predicate Storable(codec: RowCodec, o: Rows) {
    forall k :: k in o ==> codec.encode(o[k]).Ok?
  }

  function Written(codec: RowCodec, o: Rows): Table
    requires Storable(codec, o)
  {
    map k | k in o :: codec.encode(o[k]).value
  }

  lemma {:induction false} OverlayComesFromRecords(ws: Path, records: seq<Record>, k: Key)
    requires k in Overlay(ws, records)
    ensures k.0 == ws && exists r :: r in records && k.1 == r.rel && Overlay(ws, records)[k] == RowOf(r)
    decreases |records|
  {
    var front, last := records[..|records| - 1], records[|records| - 1];
    if k == (ws, last.rel) {
      assert last in records;
    } else {
      OverlayComesFromRecords(ws, front, k);
      var r :| r in front && k.1 == r.rel && Overlay(ws, front)[k] == RowOf(r);
      assert r in records;
    }
  }

  ghost predicate FailsWith(codec: RowCodec, records: seq<Record>, e: CodecError) {
    exists r :: r in records && codec.encode(RowOf(r)) == Err(e)
  }

  predicate AllEncode(codec: RowCodec, records: seq<Record>) {
    forall r :: r in records ==> codec.encode(RowOf(r)).Ok?
  }

  lemma OverlayIsStorable(codec: RowCodec, ws: Path, records: seq<Record>)
    requires AllEncode(codec, records)
    ensures Storable(codec, Overlay(ws, records))
  {
    forall k | k in Overlay(ws, records) ensures codec.encode(Overlay(ws, records)[k]).Ok? {
      OverlayComesFromRecords(ws, records, k);
    }
  }

  /** Writing one more record. */
  lemma OverlayGrows(codec: RowCodec, ws: Path, records: seq<Record>, i: nat, rows: Rows, db: Table)
    requires i < |records| && AllEncode(codec, records)
    ensures Storable(codec, Overlay(ws, records[..i])) && Storable(codec, Overlay(ws, records[..i + 1]))
    ensures var k := (ws, records[i].rel);
            && rows + Overlay(ws, records[..i + 1]) == (rows + Overlay(ws, records[..i]))[k := RowOf(records[i])]
            && db + Written(codec, Overlay(ws, records[..i + 1])) ==
                 (db + Written(codec, Overlay(ws, records[..i])))[k := codec.encode(RowOf(records[i])).value]
  {
    assert records[..i + 1][..i] == records[..i] && records[..i + 1][i] == records[i];
    OverlayIsStorable(codec, ws, records[..i]);
    OverlayIsStorable(codec, ws, records[..i + 1]);
  }

  /** The rows that read back again once written. */
  function ReadBack(codec: RowCodec, o: Rows): Rows {
    map k | k in o && codec.Readable(o[k]) :: o[k]
  }

  /** Writing replaces the decodable rows under the written keys by those that read back. */
  lemma WritingDecodes(codec: RowCodec, db: Table, o: Rows)
    requires codec.Lawful() && Storable(codec, o)
    ensures Decoded(codec, db + Written(codec, o)) == (Decoded(codec, db) - o.Keys) + ReadBack(codec, o)
  {
  }

  /** Storing keeps memory and disk in agreement. */
  lemma StoringKeeps(codec: RowCodec, rows: Rows, disk: Rows, o: Rows)
    requires Agree(codec, rows, disk) && Storable(codec, o)
    ensures Agree(codec, rows + o, (disk - o.Keys) + ReadBack(codec, o))
  {
  }

  /** Storing true rows keeps the store sound. */
  lemma StoredIsSound(codec: RowCodec, sha: Sha256, plan: Plan, now: nat, rows: Rows, db: Table, o: Rows)
    requires Sound(codec, sha, plan, now, rows, db) && Storable(codec, o) && Truthful(sha, plan, now, o)
    ensures Sound(codec, sha, plan, now, rows + o, db + Written(codec, o))
  {
    WritingDecodes(codec, db, o);
    StoringKeeps(codec, rows, Decoded(codec, db), o);
    StoredIsTrue(codec, sha, plan, now, Decoded(codec, db), o);
  }

  lemma StoredIsTrue(codec: RowCodec, sha: Sha256, plan: Plan, now: nat, disk: Rows, o: Rows)
    requires Truthful(sha, plan, now, disk) && Truthful(sha, plan, now, o)
    ensures Truthful(sha, plan, now, (disk - o.Keys) + ReadBack(codec, o))
  {
  }

  lemma SoundLater(codec: RowCodec, sha: Sha256, plan: Plan, now: nat, next: nat, rows: Rows, db: Table)
    requires Sound(codec, sha, plan, now, rows, db) && now <= next
    ensures Sound(codec, sha, plan, next, rows, db)
  {
    TrueLater(sha, plan, now, next, rows);
    TrueLater(sha, plan, now, next, Decoded(codec, db));
  }

  lemma TrueLater(sha: Sha256, plan: Plan, now: nat, next: nat, rows: Rows)
    requires Truthful(sha, plan, now, rows) && now <= next
    ensures Truthful(sha, plan, next, rows)
  {
  }

  lemma TrueStays(sha: Sha256, plan: Plan, now: nat, next: nat, k: Key, row: CachedRow)
    requires True(sha, plan, now, k, row) && now <= next
    ensures True(sha, plan, next, k, row)
  {
  }

  /** What a sound store answers is true, and could be stored again. */
  lemma AnswerIsSound(codec: RowCodec, sha: Sha256, plan: Plan, now: nat, rows: Rows, db: Table, k: Key)
    requires Sound(codec, sha, plan, now, rows, db) && Answer(rows, Decoded(codec, db), k).Some?
    ensures var row := Answer(rows, Decoded(codec, db), k).value; True(sha, plan, now, k, row) && codec.encode(row).Ok?
  {
  }

  // ---------------------------------------------------------------- the reference

  datatype StoreError = Reading(error: ReadError) | Codec(code: CodecError)

  function FileInfo(sha: Sha256, d: Disk, p: Path): (Digest, bool)
    requires Present(d, p)
  {
    (FileDigest(sha, Content(d, p)), Stat(d, p).value.executable)
  }

  /** The row a file's own state would be stored as. */
  function FreshRow(sha: Sha256, d: Disk, p: Path): CachedRow
    requires Present(d, p)
  {
    CachedRow(Stat(d, p).value, FileDigest(sha, Content(d, p)).hash)
  }

  /** Digesting with no cache at all. */
  function DigestReference(codec: RowCodec, sha: Sha256, d: Disk, p: Path): Result<Digest, StoreError> {
    if !Present(d, p) then Err(Reading(NotFound))
    else match codec.encode(FreshRow(sha, d, p))
      case Err(e) => Err(Codec(e))
      case Ok(_) => Ok(FileDigest(sha, Content(d, p)))
  }

  function BatchReference(codec: RowCodec, sha: Sha256, d: Disk, ws: Path,
      rels: seq<Path>): Result<map<Path, (Digest, bool)>, StoreError> {
    if exists rel :: rel in rels && !Present(d, ws + rel) then Err(Reading(NotFound))
    else if exists rel :: rel in rels && codec.encode(FreshRow(sha, d, ws + rel)).Err? then Err(Codec(TooLarge))
    else Ok(map rel | rel in Elements(rels) :: FileInfo(sha, d, ws + rel))
  }

  /** A file that holds still does not vanish. */
  lemma QuietStays(plan: Plan, start: nat, end: nat, p: Path, from: nat)
    requires Quiet(plan, start, end, p) && Stat(plan(start), p).Some? && start <= from
    ensures !Vanished(plan, from, end, p)
  {
    forall t: nat | from < t <= end ensures Present(plan(t), p) {
      assert Stat(plan(t), p) == Stat(plan(start), p);
    }
  }

  /** A file that holds still never looks different in two samples. */
  lemma QuietSettles(plan: Plan, start: nat, end: nat, p: Path, samples: seq<nat>)
    requires Quiet(plan, start, end, p) && |samples| > 1 && start <= samples[0]
    ensures !KeptMoving(plan, p, samples, end)
  {
    assert samples[0] < samples[1] <= end ==> Stat(plan(samples[0]), p) == Stat(plan(samples[1]), p);
  }

  /** A window of stillness contains every later start. */
  lemma QuietAfter(plan: Plan, start: nat, from: nat, end: nat, p: Path)
    requires start <= from <= end
    ensures Quiet(plan, start, end, p) ==> Quiet(plan, from, end, p)
  {
    if Quiet(plan, start, end, p) {
      forall t: nat | from <= t <= end ensures Stat(plan(t), p) == Stat(plan(from), p) {
        assert Stat(plan(t), p) == Stat(plan(start), p);
      }
    }
  }

  /** A record observed now may be stored now. */
  lemma OneRecordOverlay(sha: Sha256, plan: Plan, now: nat, ws: Path, r: Record)
    requires Observed(sha, plan(now), ws + r.rel, r.digest, r.metadata)
    ensures Truthful(sha, plan, now, Overlay(ws, [r]))
  {
    assert [r][..0] == [];
    assert Overlay(ws, [r]) == map[(ws, r.rel) := RowOf(r)];
    assert Describes(sha, plan(now), ws + r.rel, RowOf(r));
  }

  // ---------------------------------------------------------------- batches

  /** The answer for a path is that of one moment of a window. */
  ghost predicate SeenDuring(sha: Sha256, plan: Plan, start: nat, end: nat, p: Path, info: (Digest, bool)) {
    exists t | start < t <= end :: Present(plan(t), p) && info == FileInfo(sha, plan(t), p)
  }

  ghost predicate QuietAll(plan: Plan, start: nat, end: nat, ws: Path, rels: seq<Path>) {
    forall rel :: rel in rels ==> Quiet(plan, start, end, ws + rel)
  }

  ghost predicate TableTrue(codec: RowCodec, sha: Sha256, plan: Plan, now: nat, ws: Path, table: map<Path, CachedRow>) {
    forall rel :: rel in table ==> True(sha, plan, now, (ws, rel), table[rel]) && codec.encode(table[rel]).Ok?
  }

  lemma AnswersAreTrue(codec: RowCodec, sha: Sha256, plan: Plan, now: nat, rows: Rows, db: Table, ws: Path,
      rels: set<Path>)
    requires Sound(codec, sha, plan, now, rows, db)
    ensures TableTrue(codec, sha, plan, now, ws, Answers(rows, Decoded(codec, db), ws, rels))
  {
    forall rel | rel in Answers(rows, Decoded(codec, db), ws, rels)
      ensures var row := Answers(rows, Decoded(codec, db), ws, rels)[rel];
              True(sha, plan, now, (ws, rel), row) && codec.encode(row).Ok?
    {
      AnswerIsSound(codec, sha, plan, now, rows, db, (ws, rel));
    }
  }

  ghost predicate RecordsTrue(sha: Sha256, plan: Plan, now: nat, ws: Path, records: seq<Record>) {
    forall r :: r in records ==> True(sha, plan, now, (ws, r.rel), RowOf(r))
  }

  lemma OverlayIsTrue(sha: Sha256, plan: Plan, now: nat, ws: Path, records: seq<Record>)
    requires RecordsTrue(sha, plan, now, ws, records)
    ensures Truthful(sha, plan, now, Overlay(ws, records))
  {
    forall k | k in Overlay(ws, records) ensures True(sha, plan, now, k, Overlay(ws, records)[k]) {
      OverlayComesFromRecords(ws, records, k);
    }
  }

  lemma RecordMore(sha: Sha256, plan: Plan, now: nat, next: nat, ws: Path, records: seq<Record>, r: Record)
    requires RecordsTrue(sha, plan, now, ws, records) && now <= next
    requires Observed(sha, plan(next), ws + r.rel, r.digest, r.metadata)
    ensures RecordsTrue(sha, plan, next, ws, records) && RecordsTrue(sha, plan, next, ws, records + [r])
  {
    assert Describes(sha, plan(next), ws + r.rel, RowOf(r));
  }

  /** Over a still disk: what a batch has answered so far, and what it will have to write. */
  ghost predicate BatchAgrees(
    codec: RowCodec, sha: Sha256, d: Disk, ws: Path, done: seq<Path>, result: map<Path, (Digest, bool)>,
        changed: seq<Record>)
  {
    && (forall rel :: rel in done ==> Present(d, ws + rel))
    && result == (map rel | rel in Elements(done) :: FileInfo(sha, d, ws + rel))
    && (forall r :: r in changed ==> r.rel in done && RowOf(r) == FreshRow(sha, d, ws + r.rel))
    && (forall rel :: rel in done && codec.encode(FreshRow(sha, d, ws + rel)).Err? ==>
          exists r :: r in changed && r.rel == rel)
  }

  lemma QuietFile(sha: Sha256, plan: Plan, start: nat, now: nat, p: Path)
    requires Honest(plan) && Quiet(plan, start, now, p) && start <= now
    ensures Present(plan(start), p) <==> Present(plan(now), p)
    ensures Present(plan(now), p) ==>
            FreshRow(sha, plan(start), p) == FreshRow(sha, plan(now), p)
            && FileInfo(sha, plan(start), p) == FileInfo(sha, plan(now), p)
  {
    assert Stat(plan(now), p) == Stat(plan(start), p);
    if Present(plan(now), p) {
      assert SameFile(plan(start), plan(now), p);
    }
  }

  lemma BatchStep(
    codec: RowCodec, sha: Sha256, d: Disk, ws: Path, done: seq<Path>, result: map<Path, (Digest, bool)>,
        changed: seq<Record>,
    r: Record, hit: bool)
    requires BatchAgrees(codec, sha, d, ws, done, result, changed) && Present(d, ws + r.rel)
    requires RowOf(r) == FreshRow(sha, d, ws + r.rel) && (r.digest, r.metadata.executable) == FileInfo(sha, d,
            ws + r.rel)
    requires hit ==> codec.encode(RowOf(r)).Ok?
    ensures BatchAgrees(codec, sha, d, ws, done + [r.rel], result[r.rel := (r.digest, r.metadata.executable)],
            if hit then changed else changed + [r])
  {
    ElementsMore(done, r.rel);
    var changed' := if hit then changed else changed + [r];
    forall rel | rel in done + [r.rel] && codec.encode(FreshRow(sha, d, ws + rel)).Err?
      ensures exists x :: x in changed' && x.rel == rel
    {
      if rel in done {
        var x :| x in changed && x.rel == rel;
        assert x in changed';
      } else {
        assert r in changed';
      }
    }
  }

  lemma BatchDone(
    codec: RowCodec, sha: Sha256, d: Disk, ws: Path, rels: seq<Path>, result: map<Path, (Digest, bool)>,
        changed: seq<Record>, failure: Option<CodecError>)
    requires codec.Lawful() && BatchAgrees(codec, sha, d, ws, rels, result, changed)
    requires if failure.None? then AllEncode(codec, changed) else FailsWith(codec, changed, failure.value)
    ensures BatchReference(codec, sha, d, ws, rels) == if failure.None? then Ok(result) else Err(Codec(failure.value))
  {
    if failure.Some? {
      var r :| r in changed && codec.encode(RowOf(r)) == Err(failure.value);
      assert r.rel in rels && NonNegative(RowOf(r).metadata);
    } else {
      forall rel | rel in rels ensures codec.encode(FreshRow(sha, d, ws + rel)).Ok? {
        assert forall r :: r in changed && r.rel == rel ==> codec.encode(RowOf(r)).Ok?;
      }
    }
  }

  // ---------------------------------------------------------------- the scan of a batch

  ghost predicate Scanned(sha: Sha256, plan: Plan, start: nat, now: nat, ws: Path, done: seq<Path>,
      result: map<Path, (Digest, bool)>) {
    && result.Keys == Elements(done)
    && forall rel :: rel in result ==> SeenDuring(sha, plan, start, now, ws + rel, result[rel])
  }

  ghost predicate QuietScan(
    codec: RowCodec, sha: Sha256, d: Disk, ws: Path, rels: seq<Path>, i: nat,
        scan: Result<map<Path, (Digest, bool)>, ReadError>, changed: seq<Record>)
    requires i <= |rels|
  {
    match scan
    case Ok(result) => BatchAgrees(codec, sha, d, ws, rels[..i], result, changed)
    case Err(e) => e == NotFound && exists rel :: rel in rels && !Present(d, ws + rel)
  }

  lemma ScannedMore(
    sha: Sha256, plan: Plan, start: nat, before: nat, now: nat, ws: Path, done: seq<Path>,
        result: map<Path, (Digest, bool)>, r: Record)
    requires Scanned(sha, plan, start, before, ws, done, result) && start <= before < now
    requires Observed(sha, plan(now), ws + r.rel, r.digest, r.metadata)
    ensures Scanned(sha, plan, start, now, ws, done + [r.rel], result[r.rel := (r.digest, r.metadata.executable)])
  {
    ElementsMore(done, r.rel);
    assert (r.digest, r.metadata.executable) == FileInfo(sha, plan(now), ws + r.rel);
    forall rel | rel in result ensures SeenDuring(sha, plan, start, now, ws + rel, result[rel]) {
      assert SeenDuring(sha, plan, start, before, ws + rel, result[rel]);
    }
  }

  lemma TableStaysTrue(codec: RowCodec, sha: Sha256, plan: Plan, now: nat, next: nat, ws: Path,
      table: map<Path, CachedRow>)
    requires TableTrue(codec, sha, plan, now, ws, table) && now <= next
    ensures TableTrue(codec, sha, plan, next, ws, table)
  {
    forall rel | rel in table ensures True(sha, plan, next, (ws, rel), table[rel]) {
      TrueStays(sha, plan, now, next, (ws, rel), table[rel]);
    }
  }

  lemma RecordsStayTrue(sha: Sha256, plan: Plan, now: nat, next: nat, ws: Path, records: seq<Record>)
    requires RecordsTrue(sha, plan, now, ws, records) && now <= next
    ensures RecordsTrue(sha, plan, next, ws, records)
  {
    forall r | r in records ensures True(sha, plan, next, (ws, r.rel), RowOf(r)) {
      TrueStays(sha, plan, now, next, (ws, r.rel), RowOf(r));
    }
  }

  /** One file of a batch over files that hold still. */
  lemma QuietStep(
    codec: RowCodec, sha: Sha256, plan: Plan, start: nat, now: nat, ws: Path, rels: seq<Path>, i: nat,
    result: map<Path, (Digest, bool)>, changed: seq<Record>, r: Record, hit: bool)
    requires Honest(plan) && start <= now && QuietAll(plan, start, now, ws, rels) && i < |rels| && r.rel == rels[i]
    requires BatchAgrees(codec, sha, plan(start), ws, rels[..i], result, changed)
    requires Observed(sha, plan(now), ws + r.rel, r.digest, r.metadata) && (hit ==> codec.encode(RowOf(r)).Ok?)
    ensures BatchAgrees(codec, sha, plan(start), ws, rels[..i + 1], result[r.rel := (r.digest, r.metadata.executable)],
            if hit then changed else changed + [r])
  {
    QuietFile(sha, plan, start, now, ws + r.rel);
    BatchStep(codec, sha, plan(start), ws, rels[..i], result, changed, r, hit);
    TakeMore(rels, i);
  }

  /** One more file resolved: every invariant of the scan goes on. */
  lemma ScanGoesOn(
    codec: RowCodec, sha: Sha256, plan: Plan, start: nat, before: nat, now: nat, ws: Path, rels: seq<Path>, i: nat,
    table: map<Path, CachedRow>, result: map<Path, (Digest, bool)>, changed: seq<Record>, r: Record, hit: bool)
    requires Honest(plan) && start <= before < now && i < |rels| && r.rel == rels[i]
    requires TableTrue(codec, sha, plan, before, ws, table) && RecordsTrue(sha, plan, before, ws, changed)
    requires Scanned(sha, plan, start, before, ws, rels[..i], result)
    requires QuietAll(plan, start, before, ws, rels) ==>
            BatchAgrees(codec, sha, plan(start), ws, rels[..i], result, changed)
    requires Observed(sha, plan(now), ws + r.rel, r.digest, r.metadata)
    requires hit ==> r.rel in table && table[r.rel] == RowOf(r)
    ensures TableTrue(codec, sha, plan, now, ws, table)
    ensures RecordsTrue(sha, plan, now, ws, if hit then changed else changed + [r])
    ensures Scanned(sha, plan, start, now, ws, rels[..i + 1], result[r.rel := (r.digest, r.metadata.executable)])
    ensures QuietAll(plan, start, now, ws, rels) ==>
      BatchAgrees(codec, sha, plan(start), ws, rels[..i + 1], result[r.rel := (r.digest, r.metadata.executable)],
          if hit then changed else changed + [r])
  {
    TableStaysTrue(codec, sha, plan, before, now, ws, table);
    RecordMore(sha, plan, before, now, ws, changed, r);
    ScannedMore(sha, plan, start, before, now, ws, rels[..i], result, r);
    TakeMore(rels, i);
    if QuietAll(plan, start, now, ws, rels) {
      QuietAllEarlier(plan, start, before, now, ws, rels);
      QuietStep(codec, sha, plan, start, now, ws, rels, i, result, changed, r, hit);
    }
  }

  /** A file that cannot be read ends the scan; a still one only if it is not there. */
  lemma ScanStops(
    codec: RowCodec, sha: Sha256, plan: Plan, start: nat, before: nat, now: nat, ws: Path, rels: seq<Path>, i: nat,
    table: map<Path, CachedRow>, changed: seq<Record>, e: ReadError)
    requires Honest(plan) && start <= before < now && i < |rels|
    requires TableTrue(codec, sha, plan, before, ws, table) && RecordsTrue(sha, plan, before, ws, changed)
    requires Quiet(plan, before, now, ws + rels[i]) ==> e == NotFound && !Present(plan(now), ws + rels[i])
    ensures TableTrue(codec, sha, plan, now, ws, table) && RecordsTrue(sha, plan, now, ws, changed)
    ensures QuietAll(plan, start, now, ws, rels) ==>
            e == NotFound && exists rel :: rel in rels && !Present(plan(start), ws + rel)
  {
    TableStaysTrue(codec, sha, plan, before, now, ws, table);
    RecordsStayTrue(sha, plan, before, now, ws, changed);
    if QuietAll(plan, start, now, ws, rels) {
      QuietAfter(plan, start, before, now, ws + rels[i]);
      QuietFile(sha, plan, start, now, ws + rels[i]);
    }
  }

  lemma QuietAllEarlier(plan: Plan, start: nat, before: nat, now: nat, ws: Path, rels: seq<Path>)
    requires start <= before <= now
    ensures QuietAll(plan, start, now, ws, rels) ==> QuietAll(plan, start, before, ws, rels)
  {
    if QuietAll(plan, start, now, ws, rels) {
      forall rel, t: nat | rel in rels && start <= t <= before
        ensures Stat(plan(t), ws + rel) == Stat(plan(start), ws + rel)
      {
        assert Quiet(plan, start, now, ws + rel);
      }
    }
  }

  /** Removing the same keys from both levels keeps the store sound and drops exactly their answers. */
  lemma RemovedIsSound(codec: RowCodec, sha: Sha256, plan: Plan, now: nat, rows: Rows, db: Table, keys: set<Key>)
    requires Sound(codec, sha, plan, now, rows, db)
    ensures Sound(codec, sha, plan, now, rows - keys, db - keys)
    ensures forall k :: Answer(rows - keys, Decoded(codec, db - keys), k) == if k in keys then None else Answer(rows,
            Decoded(codec, db), k)
  {
    assert Decoded(codec, db - keys) == Decoded(codec, db) - keys;
  }

  function KeysIn(keys: set<Key>, ws: Path): set<Key> {
    set k | k in keys && k.0 == ws
  }

  /** Clearing a workspace removes exactly its answers. */
  lemma ClearedIsSound(codec: RowCodec, sha: Sha256, plan: Plan, now: nat, rows: Rows, db: Table, ws: Path)
    requires Sound(codec, sha, plan, now, rows, db)
    ensures var rows', db' := rows - KeysIn(rows.Keys, ws), db - KeysIn(db.Keys, ws);
            && Sound(codec, sha, plan, now, rows', db')
            && forall k :: Answer(rows', Decoded(codec, db'), k) == if k.0 == ws then None else Answer(rows,
                Decoded(codec, db), k)
  {
    var keys := KeysIn(rows.Keys + db.Keys, ws);
    assert rows - KeysIn(rows.Keys, ws) == rows - keys && db - KeysIn(db.Keys, ws) == db - keys;
    RemovedIsSound(codec, sha, plan, now, rows, db, keys);
  }
}
