/** The durable page store (nlab-listary/src-tauri/src/storage.rs and
    src/storage.rs). The embedded database is one map from keys to bytes:
    page records live under their id and metadata under `meta:` keys, in the
    same key space. The binary encoding is a pair of functions; the lemmas
    that need decoding to invert encoding say so with `RoundTrips`. */
module Storage {
  import opened Base
  import opened Models

  type Byte = b: int | 0 <= b < 256
  type Bytes = seq<Byte>

  /** The database: one map for page records and metadata alike. */
  type Db = map<string, Bytes>

  datatype CodecError = CodecError(reason: string)

  /** The fixed binary encoding of a page record. */
  datatype Codec = Codec(encode: Page -> Result<Bytes, CodecError>, decode: Bytes -> Result<Page, CodecError>)

  /** Decoding what was encoded gives the page back. */
  ghost predicate RoundTrips(c: Codec) {
    forall p: Page :: c.encode(p).Ok? ==> c.decode(c.encode(p).value) == Ok(p)
  }

  datatype StorageError =
    | SerializationError(cause: CodecError)
    | DeserializationError(cause: CodecError)
    | PageSizeExceeded(actual: nat, max: nat)
    | InvalidMetadataKey(key: string)

  /** The size rule of a storage version: the desktop app's store has none,
      the mirror binary's store refuses records over `NLAB_PAGE_SIZE`. */
  datatype SizeRule = Unlimited | AtMost(max: nat)

  const NLAB_PAGE_SIZE: nat := 4 * 1024
  const AppRule: SizeRule := Unlimited
  const MirrorRule: SizeRule := AtMost(NLAB_PAGE_SIZE)

  const MetaPrefix: string := "meta:"

  /** The database after an operation, and what the operation returned. */
  datatype Outcome<T> = Outcome(db: Db, result: Result<T, StorageError>)

  /** Encoding of one page under the size rule, as both save paths check it. */
  function EncodeChecked(codec: Codec, rule: SizeRule, p: Page): (r: Result<Bytes, StorageError>)
    ensures codec.encode(p).Err? ==> r == Err(SerializationError(codec.encode(p).error))
    ensures codec.encode(p).Ok? && rule.AtMost? && |codec.encode(p).value| > rule.max ==>
      r == Err(PageSizeExceeded(|codec.encode(p).value|, rule.max))
    ensures r.Ok? <==> codec.encode(p).Ok? && (rule.AtMost? ==> |codec.encode(p).value| <= rule.max)
    ensures r.Ok? ==> r.value == codec.encode(p).value
  {
    match codec.encode(p)
    case Err(e) => Err(SerializationError(e))
    case Ok(bytes) =>
      if rule.AtMost? && |bytes| > rule.max then Err(PageSizeExceeded(|bytes|, rule.max))
      else Ok(bytes)
  }

  /** `save_page`: upsert of one record under the page's id. */
  function SavePage(codec: Codec, rule: SizeRule, db: Db, p: Page): (r: Outcome<()>)
    ensures r.result.Err? ==> r.db == db
    ensures r.result.Ok? <==> EncodeChecked(codec, rule, p).Ok?
    ensures r.result.Err? ==> r.result.error == EncodeChecked(codec, rule, p).error
    ensures r.result.Ok? ==> p.id in r.db && r.db[p.id] == codec.encode(p).value
    ensures forall k :: k != p.id ==> (k in r.db <==> k in db) && (k in db ==> r.db[k] == db[k])
  {
    match EncodeChecked(codec, rule, p)
    case Err(e) => Outcome(db, Err(e))
    case Ok(bytes) => Outcome(db[p.id := bytes], Ok(()))
  }

  /** `get_page`: the decoded record, `None` for an id never written. */
  function GetPage(codec: Codec, db: Db, id: string): (r: Result<Option<Page>, StorageError>)
    ensures id !in db ==> r == Ok(None)
    ensures id in db ==> match codec.decode(db[id])
      case Ok(p) => r == Ok(Some(p))
      case Err(e) => r == Err(DeserializationError(e))
  {
    if id !in db then Ok(None)
    else
      match codec.decode(db[id])
      case Ok(p) => Ok(Some(p))
      case Err(e) => Err(DeserializationError(e))
  }

  /** Saving a page and reading its id back gives the same page,
      field for field. */
  lemma SaveThenGet(codec: Codec, rule: SizeRule, db: Db, p: Page)
    requires RoundTrips(codec)
    requires SavePage(codec, rule, db, p).result.Ok?
    ensures GetPage(codec, SavePage(codec, rule, db, p).db, p.id) == Ok(Some(p))
  {
  }

  /** The desktop store has no size limit: a page saves whenever it encodes. */
  lemma AppSaveOnlyFailsOnEncoding(codec: Codec, db: Db, p: Page)
    ensures SavePage(codec, AppRule, db, p).result.Ok? <==> codec.encode(p).Ok?
  {
  }

  /** In the mirror binary's store, a record that encodes to at most 4096
      bytes is saved and reads back unchanged; a larger one is refused and
      the store is left as it was. */
  lemma MirrorSizeLimit(codec: Codec, db: Db, p: Page)
    requires RoundTrips(codec)
    requires codec.encode(p).Ok?
    ensures |codec.encode(p).value| <= NLAB_PAGE_SIZE ==>
      GetPage(codec, SavePage(codec, MirrorRule, db, p).db, p.id) == Ok(Some(p))
    ensures |codec.encode(p).value| > NLAB_PAGE_SIZE ==>
      SavePage(codec, MirrorRule, db, p) ==
        Outcome(db, Err(PageSizeExceeded(|codec.encode(p).value|, NLAB_PAGE_SIZE)))
  {
  }

  // ---------------------------------------------------------------------------
  // Batches

  /** `true` when every page of `ps` encodes within the size rule. */
  predicate AllEncode(codec: Codec, rule: SizeRule, ps: seq<Page>) {
    forall k :: 0 <= k < |ps| ==> EncodeChecked(codec, rule, ps[k]).Ok?
  }

  /** Page `k` is the first of `ps` that fails to encode, with error `e`. */
  ghost predicate FirstEncodeFailure(codec: Codec, rule: SizeRule, ps: seq<Page>, k: nat, e: StorageError) {
    && k < |ps| && EncodeChecked(codec, rule, ps[k]) == Err(e)
    && forall j :: 0 <= j < k ==> EncodeChecked(codec, rule, ps[j]).Ok?
  }

  /** `b` maps exactly the ids of `ps`, each to the encoding of its last version. */
  ghost predicate HoldsLatest(codec: Codec, ps: seq<Page>, b: Db) {
    && b.Keys == Ids(ps)
    && forall id :: id in b ==> LatestVersion(ps, id).Some? && codec.encode(LatestVersion(ps, id).value) == Ok(b[id])
  }

  /** Writing the last page's bytes onto the batch of the pages before it
      gives the batch of all of them. */
  lemma HoldsLatestSnoc(codec: Codec, ps: seq<Page>, b: Db, bytes: Bytes)
    requires |ps| > 0 && HoldsLatest(codec, ps[..|ps| - 1], b)
    requires codec.encode(ps[|ps| - 1]) == Ok(bytes)
    ensures HoldsLatest(codec, ps, b[ps[|ps| - 1].id := bytes])
  {
    var last := ps[|ps| - 1];
    IdsSnoc(ps);
    var b' := b[last.id := bytes];
    assert b'.Keys == b.Keys + {last.id};
    forall id | id in b'
      ensures LatestVersion(ps, id).Some? && codec.encode(LatestVersion(ps, id).value) == Ok(b'[id])
    {
      if id == last.id {
        assert LatestVersion(ps, id) == Some(last);
      } else {
        assert LatestVersion(ps, id) == LatestVersion(ps[..|ps| - 1], id);
        assert b'[id] == b[id];
      }
    }
  }

  /** A first failure among the pages before the last is the first failure of all. */
  lemma FirstEncodeFailureSnoc(codec: Codec, rule: SizeRule, ps: seq<Page>, front: seq<Page>, e: StorageError)
    requires |ps| > 0 && front == ps[..|ps| - 1]
    requires exists k: nat :: FirstEncodeFailure(codec, rule, front, k, e)
    ensures exists k: nat :: FirstEncodeFailure(codec, rule, ps, k, e)
  {
    var k: nat :| FirstEncodeFailure(codec, rule, front, k, e);
    assert forall j :: 0 <= j <= k ==> front[j] == ps[j];
    assert FirstEncodeFailure(codec, rule, ps, k, e);
  }

  /** The `sled::Batch` the loop of `save_pages_batch` fills, in order; the
      first page that fails to encode ends the loop with its error. */
  function BuildBatch(codec: Codec, rule: SizeRule, ps: seq<Page>): (r: Result<Db, StorageError>)
    ensures r.Ok? <==> AllEncode(codec, rule, ps)
    ensures r.Ok? ==> r.value.Keys == Ids(ps)
    ensures r.Ok? ==> forall id :: id in r.value ==>
      LatestVersion(ps, id).Some? && codec.encode(LatestVersion(ps, id).value) == Ok(r.value[id])
    ensures r.Err? ==> exists k: nat :: FirstEncodeFailure(codec, rule, ps, k, r.error)
  {
    if |ps| == 0 then Ok(map[])
    else
      var n := |ps| - 1;
      assert forall k :: 0 <= k < n ==> ps[..n][k] == ps[k];
      match BuildBatch(codec, rule, ps[..n])
      case Err(e) =>
        FirstEncodeFailureSnoc(codec, rule, ps, ps[..n], e);
        Err(e)
      case Ok(batch) =>
        match EncodeChecked(codec, rule, ps[n])
        case Err(e) =>
          assert FirstEncodeFailure(codec, rule, ps, n, e);
          Err(e)
        case Ok(bytes) =>
          HoldsLatestSnoc(codec, ps, batch, bytes);
          Ok(batch[ps[n].id := bytes])
  }

  /** `save_pages_batch`: the whole batch is applied at once, or, when any
      page fails before `apply_batch`, nothing is written. */
  function SavePagesBatch(codec: Codec, rule: SizeRule, db: Db, ps: seq<Page>): (r: Outcome<()>)
    ensures r.result.Ok? <==> AllEncode(codec, rule, ps)
    ensures r.result.Err? ==> r.db == db
    ensures r.result.Ok? ==> forall p :: p in ps ==>
      p.id in r.db && r.db[p.id] == codec.encode(LatestVersion(ps, p.id).value).value
    ensures forall k :: k !in Ids(ps) ==> (k in r.db <==> k in db) && (k in db ==> r.db[k] == db[k])
  {
    match BuildBatch(codec, rule, ps)
    case Err(e) => Outcome(db, Err(e))
    case Ok(batch) => Outcome(db + batch, Ok(()))
  }

  /** After a batch, every id of the batch reads back as its last version in
      the batch: for duplicate ids the last write wins. */
  lemma BatchThenGet(codec: Codec, rule: SizeRule, db: Db, ps: seq<Page>, p: Page)
    requires RoundTrips(codec)
    requires SavePagesBatch(codec, rule, db, ps).result.Ok?
    requires p in ps
    ensures GetPage(codec, SavePagesBatch(codec, rule, db, ps).db, p.id)
      == Ok(Some(LatestVersion(ps, p.id).value))
  {
    var v := LatestVersion(ps, p.id);
    assert p.id in Ids(ps);
    var k :| 0 <= k < |ps| && ps[k] == v.value && forall j :: k < j < |ps| ==> ps[j].id != p.id;
    assert EncodeChecked(codec, rule, ps[k]).Ok?;
  }

  /** Writing the same entries again changes nothing. */
  lemma OverwriteIdempotent(a: Db, b: Db)
    ensures (a + b) + b == a + b
  {
    assert forall k :: k in (a + b) + b ==> ((a + b) + b)[k] == (a + b)[k];
  }

  /** Applying the same batch twice leaves the same store as applying it once. */
  lemma BatchIdempotent(codec: Codec, rule: SizeRule, db: Db, ps: seq<Page>)
    ensures var once := SavePagesBatch(codec, rule, db, ps);
      SavePagesBatch(codec, rule, once.db, ps) == once
  {
    var once := SavePagesBatch(codec, rule, db, ps);
    match BuildBatch(codec, rule, ps)
    case Err(e) =>
    case Ok(batch) =>
      assert once.db == db + batch;
      OverwriteIdempotent(db, batch);
  }

  /** The mirror binary's batch stops at the first oversized page and writes
      none of the batch. */
  lemma MirrorBatchRefusesOversized(codec: Codec, db: Db, ps: seq<Page>, k: nat)
    requires k < |ps| && codec.encode(ps[k]).Ok? && |codec.encode(ps[k]).value| > NLAB_PAGE_SIZE
    ensures SavePagesBatch(codec, MirrorRule, db, ps).db == db
    ensures SavePagesBatch(codec, MirrorRule, db, ps).result.Err?
  {
    assert !EncodeChecked(codec, MirrorRule, ps[k]).Ok?;
  }

  // ---------------------------------------------------------------------------
  // Metadata

  /** `set_metadata`: raw bytes under a `meta:` key; any other key is refused
      and nothing is written. */
  function SetMetadata(db: Db, key: string, value: Bytes): (r: Outcome<()>)
    ensures r.result.Ok? <==> MetaPrefix <= key
    ensures r.result.Err? ==> r.db == db && r.result.error == InvalidMetadataKey(key)
    ensures r.result.Ok? ==> key in r.db && r.db[key] == value
    ensures forall k :: k != key ==> (k in r.db <==> k in db) && (k in db ==> r.db[k] == db[k])
  {
    if !(MetaPrefix <= key) then Outcome(db, Err(InvalidMetadataKey(key)))
    else Outcome(db[key := value], Ok(()))
  }

  /** `get_metadata`: the raw bytes under a `meta:` key; any other key is refused. */
  function GetMetadata(db: Db, key: string): (r: Result<Option<Bytes>, StorageError>)
    ensures !(MetaPrefix <= key) <==> r == Err(InvalidMetadataKey(key))
    ensures MetaPrefix <= key && key !in db ==> r == Ok(None)
    ensures MetaPrefix <= key && key in db ==> r == Ok(Some(db[key]))
  {
    if !(MetaPrefix <= key) then Err(InvalidMetadataKey(key))
    else if key in db then Ok(Some(db[key]))
    else Ok(None)
  }

  /** A metadata value reads back unchanged. */
  lemma MetadataRoundTrip(db: Db, key: string, value: Bytes)
    requires MetaPrefix <= key
    ensures GetMetadata(SetMetadata(db, key, value).db, key) == Ok(Some(value))
  {
  }

  /** `set_metadata("invalid_key", ..)` is refused. */
  lemma InvalidKeyRefused(db: Db, value: Bytes)
    ensures SetMetadata(db, "invalid_key", value) == Outcome(db, Err(InvalidMetadataKey("invalid_key")))
  {
    assert "invalid_key"[0] != MetaPrefix[0];
  }

  /** Page ids and metadata keys share one key space: a page whose id starts
      with `meta:` is replaced by a metadata write to that key, and reading
      the page then decodes the metadata bytes. */
  lemma MetadataShadowsPage(codec: Codec, rule: SizeRule, db: Db, p: Page, value: Bytes)
    requires MetaPrefix <= p.id
    requires SavePage(codec, rule, db, p).result.Ok?
    ensures var saved := SavePage(codec, rule, db, p).db;
      var after := SetMetadata(saved, p.id, value).db;
      && GetMetadata(after, p.id) == Ok(Some(value))
      && GetPage(codec, after, p.id) == (match codec.decode(value)
           case Ok(q) => Ok(Some(q))
           case Err(e) => Err(DeserializationError(e)))
  {
  }
}
