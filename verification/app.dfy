/** The desktop application's state machine (nlab-listary/src-tauri/src/lib.rs):
    two components that start absent, an initialisation that fills both or
    neither, and the commands the user interface calls. Threads, the lock
    and status events are not modelled; each step is one sequential call. */
module App {
  import opened Base
  import opened Models
  import Storage
  import Search
  import Parser
  import Mirror

  /** The search engine and the store, each present once initialised. */
  datatype AppState = AppState(engine: Option<Search.Index>, storage: Option<Storage.Db>)

  const InitialState: AppState := AppState(None, None)

  /** How many hits a search asks the engine for. */
  const ResultLimit: nat := 10

  datatype AppError =
    | EngineNotInitialized
    | StorageNotInitialized
    | SearchFailed(searchError: Search.SearchError)
    | EmptyUrl
    | OpenFailed(reason: string)
    | SyncFailed(syncError: Mirror.SyncError)
    | MirrorMissing
    | StoreFailed(storageError: Storage.StorageError)

  /** The fixed collaborators: the record encoding and the query engine. */
  datatype Env = Env(codec: Storage.Codec, query: Search.QueryEngine)

  /** `is_ready`. */
  function IsReady(s: AppState): (r: bool)
    ensures r ==> s.engine.Some?
    ensures r ==> s.storage.Some?
    ensures s.engine.Some? && s.storage.Some? ==> r
  {
    s.engine.Some? && s.storage.Some?
  }

  /** A hit is shown when its id reads back as a stored page. */
  predicate Hydratable(codec: Storage.Codec, db: Storage.Db, res: Search.SearchResult) {
    var got := Storage.GetPage(codec, db, res.id);
    got.Ok? && got.value.Some?
  }

  /** The entry shown for a readable hit: the index hit's title with the
      stored page's url. */
  function Shown(codec: Storage.Codec, db: Storage.Db, res: Search.SearchResult): SearchIndex
    requires Hydratable(codec, db, res)
  {
    SearchIndex(res.title, Storage.GetPage(codec, db, res.id).value.value.url)
  }

  /** The `filter_map` of `get_search_results`: one entry per hit whose
      record reads back, in hit order, and nothing for a hit whose record
      is missing or unreadable. */
  function Hydrate(codec: Storage.Codec, db: Storage.Db, results: seq<Search.SearchResult>)
    : (r: seq<SearchIndex>)
    ensures |r| <= |results|
    ensures forall x :: x in r ==> exists res :: res in results && Hydratable(codec, db, res) && x == Shown(codec, db, res)
    ensures forall res :: res in results && Hydratable(codec, db, res) ==> Shown(codec, db, res) in r
    ensures (forall res :: res in results ==> Hydratable(codec, db, res)) ==> |r| == |results|
    ensures (forall res :: res in results ==> !Hydratable(codec, db, res)) ==> r == []
  {
    if |results| == 0 then []
    else
      var res := results[0];
      var rest := Hydrate(codec, db, results[1..]);
      assert results == [res] + results[1..];
      if Hydratable(codec, db, res) then [Shown(codec, db, res)] + rest
      else rest
  }

  /** Hydrating a concatenation hydrates each part, in order: with the
      one-hit case, this fixes the result as the readable hits' entries in
      hit order. */
  lemma {:induction false} HydrateAppend(codec: Storage.Codec, db: Storage.Db, a: seq<Search.SearchResult>, b: seq<Search.SearchResult>)
    ensures Hydrate(codec, db, a + b) == Hydrate(codec, db, a) + Hydrate(codec, db, b)
    ensures |a| == 1 ==> Hydrate(codec, db, a) == (if Hydratable(codec, db, a[0]) then [Shown(codec, db, a[0])] else [])
  {
    if |a| > 0 {
      assert a + b == [a[0]] + (a[1..] + b);
      assert a == [a[0]] + a[1..];
      HydrateCons(codec, db, a[0], a[1..] + b);
      HydrateCons(codec, db, a[0], a[1..]);
      HydrateAppend(codec, db, a[1..], b);
      if |a| == 1 {
        HydrateOne(codec, db, a);
      }
    } else {
      assert a + b == b;
    }
  }

  lemma HydrateCons(codec: Storage.Codec, db: Storage.Db, x: Search.SearchResult, rest: seq<Search.SearchResult>)
    ensures Hydrate(codec, db, [x] + rest)
      == (if Hydratable(codec, db, x) then [Shown(codec, db, x)] else []) + Hydrate(codec, db, rest)
  {
    assert ([x] + rest)[0] == x && ([x] + rest)[1..] == rest;
  }

  lemma HydrateOne(codec: Storage.Codec, db: Storage.Db, a: seq<Search.SearchResult>)
    requires |a| == 1
    ensures Hydrate(codec, db, a) == (if Hydratable(codec, db, a[0]) then [Shown(codec, db, a[0])] else [])
  {
    assert a[1..] == [];
  }

  /** `get_search_results`. */
  function GetSearchResults(env: Env, s: AppState, q: string): (r: Result<seq<SearchIndex>, AppError>)
    ensures s.engine.None? ==> r == Err(EngineNotInitialized)
    ensures s.engine.Some? && s.storage.None? ==> r == Err(StorageNotInitialized)
    ensures IsReady(s) ==> (r.Err? <==> !env.query.parses(q))
    ensures IsReady(s) && r.Err? ==> r.error == SearchFailed(Search.QueryParseError)
    ensures r.Ok? ==> IsReady(s) && |r.value| <= ResultLimit
    ensures r.Ok? ==> forall x :: x in r.value ==> exists res :: (
      && res in Search.SearchDefault(env.query, s.engine.value, q, ResultLimit).value
      && Hydratable(env.codec, s.storage.value, res)
      && x == Shown(env.codec, s.storage.value, res))
    ensures r.Ok? ==> forall res ::
      (res in Search.SearchDefault(env.query, s.engine.value, q, ResultLimit).value
       && Hydratable(env.codec, s.storage.value, res)) ==> Shown(env.codec, s.storage.value, res) in r.value
  {
    match s.engine
    case None => Err(EngineNotInitialized)
    case Some(ix) =>
      match s.storage
      case None => Err(StorageNotInitialized)
      case Some(db) =>
        match Search.SearchDefault(env.query, ix, q, ResultLimit)
        case Err(e) => Err(SearchFailed(e))
        case Ok(results) => Ok(Hydrate(env.codec, db, results))
  }

  /** `open_url`: the empty string is refused before the system opener is
      asked; `launch` is the opener. */
  function OpenUrl(url: string, launch: string -> Result<(), string>): (r: Result<(), AppError>)
    ensures url == "" ==> r == Err(EmptyUrl)
    ensures url != "" ==> (r.Ok? <==> launch(url).Ok?)
    ensures url != "" && r.Err? ==> r.error == OpenFailed(launch(url).error)
  {
    if url == "" then Err(EmptyUrl)
    else
      match launch(url)
      case Ok(_) => Ok(())
      case Err(e) => Err(OpenFailed(e))
  }

  // ---------------------------------------------------------------------------
  // Initialisation

  /** What `initialize_components` finds: the inputs of the mirror update,
      whether the mirror directory exists afterwards, the mirror's files,
      and the store and index directories (`None` when missing; an existing
      directory is opened with its contents). */
  datatype Startup = Startup(
    mirrorDisk: Mirror.Disk,
    fetched: Result<Mirror.FetchHead, Mirror.GitError>,
    analysis: Mirror.Analysis,
    remote: Result<Mirror.Remote, Mirror.GitError>,
    mirrorPresent: bool,
    root: Parser.Path,
    walk: seq<Parser.WalkItem>,
    storageDir: Option<Storage.Db>,
    indexDir: Option<Search.Index>)

  /** The pages `index_local_files` extracts from the mirror. */
  function PagesOf(st: Startup): seq<Page> {
    Parser.IndexLocalFiles(st.root, st.walk).value
  }

  /** Whether the store or the index directory is missing. */
  predicate NeedsFullRebuild(st: Startup) {
    st.storageDir.None? || st.indexDir.None?
  }

  /** The mirror update `initialize_components` runs: `update_local_repository`
      as written, or with the corrected clone when `intended`. */
  function MirrorUpdate(st: Startup, intended: bool): Result<Mirror.Repo, Mirror.SyncError> {
    if intended then Mirror.UpdateLocalRepositoryIntended(Mirror.Library, st.mirrorDisk, st.fetched, st.analysis, st.remote)
    else Mirror.UpdateLocalRepository(Mirror.Library, st.mirrorDisk, st.fetched, st.analysis, st.remote)
  }

  /** The steps common to both paths: update the mirror, whose error
      propagates, and check that the mirror directory exists. */
  function SyncMirror(st: Startup, intended: bool): (r: Result<(), AppError>)
    ensures r.Ok? <==> MirrorUpdate(st, intended).Ok? && st.mirrorPresent
    ensures MirrorUpdate(st, intended).Err? ==> r == Err(SyncFailed(MirrorUpdate(st, intended).error))
    ensures MirrorUpdate(st, intended).Ok? && !st.mirrorPresent ==> r == Err(MirrorMissing)
  {
    match MirrorUpdate(st, intended)
    case Err(e) => Err(SyncFailed(e))
    case Ok(_) => if !st.mirrorPresent then Err(MirrorMissing) else Ok(())
  }

  /** `initialize_components` as written. A full rebuild saves the batch
      and then builds onto the index `TantivySearch::new` opens, which is
      the old one when only the store was missing; the incremental path
      opens the store without writing to it. */
  function InitializeAsWritten(env: Env, st: Startup): (r: Result<(Search.Index, Storage.Db), AppError>)
    ensures r.Ok? <==>
      (SyncMirror(st, false).Ok? && (NeedsFullRebuild(st) ==> Storage.AllEncode(env.codec, Storage.AppRule, PagesOf(st))))
    ensures r.Ok? && NeedsFullRebuild(st) ==>
      var before := st.indexDir.GetOr(Search.Index(Search.AppSchema, [])).docs;
      |r.value.0.docs| == |before| + |PagesOf(st)| && r.value.0.docs[..|before|] == before
    ensures r.Ok? && NeedsFullRebuild(st) ==>
      r.value.0 == Search.BuildIndex(st.indexDir.GetOr(Search.Index(Search.AppSchema, [])), PagesOf(st))
    ensures r.Ok? && NeedsFullRebuild(st) ==>
      r.value.1 == Storage.SavePagesBatch(env.codec, Storage.AppRule, st.storageDir.GetOr(map[]), PagesOf(st)).db
    ensures r.Ok? && NeedsFullRebuild(st) && Storage.RoundTrips(env.codec) ==>
      AllStored(env.codec, r.value.1, PagesOf(st))
    ensures r.Ok? && !NeedsFullRebuild(st) ==> r.value.1 == st.storageDir.value
    ensures r.Ok? && !NeedsFullRebuild(st) ==> r.value.0 == Search.UpdatePagesBatch(st.indexDir.value, PagesOf(st))
    ensures r.Ok? && !NeedsFullRebuild(st) && st.indexDir.value.schema.idIndexed ==>
      AllIndexedOnce(r.value.0, PagesOf(st))
  {
    var _ :- SyncMirror(st, false);
    var pages := PagesOf(st);
    if NeedsFullRebuild(st) then
      var saved := Storage.SavePagesBatch(env.codec, Storage.AppRule, st.storageDir.GetOr(map[]), pages);
      if saved.result.Err? then Err(StoreFailed(saved.result.error))
      else
        var engine := Search.BuildIndex(st.indexDir.GetOr(Search.Index(Search.AppSchema, [])), pages);
        StoredAfterBatch(env.codec, st.storageDir.GetOr(map[]), pages);
        Ok((engine, saved.db))
    else
      Ok((Search.UpdatePagesBatch(st.indexDir.value, pages), st.storageDir.value))
  }

  /** When only the store is missing, the as-written rebuild appends every
      page to the surviving index, so a page indexed before now has two
      documents and is reported twice. */
  lemma RebuildOverSurvivingIndexDuplicates(env: Env, st: Startup, p: Page)
    requires st.storageDir.None? && st.indexDir.Some?
    requires Search.DocOf(p) in st.indexDir.value.docs && p in PagesOf(st)
    requires InitializeAsWritten(env, st).Ok?
    ensures |Search.WithId(InitializeAsWritten(env, st).value.0.docs, p.id)| >= 2
  {
    Search.RebuildDuplicates(st.indexDir.value, PagesOf(st), p);
  }

  /** On the incremental path a page new to the mirror is indexed but never
      stored, so every hit on it is dropped when results are hydrated. */
  lemma IncrementalNewPageNeverShown(env: Env, st: Startup, p: Page)
    requires !NeedsFullRebuild(st) && st.indexDir.value.schema == Search.AppSchema
    requires p in PagesOf(st) && p.id !in st.storageDir.value
    requires InitializeAsWritten(env, st).Ok?
    ensures var (ix, db) := InitializeAsWritten(env, st).value;
      && Search.WithId(ix.docs, p.id) == [Search.DocOf(LatestVersion(PagesOf(st), p.id).value)]
      && Storage.GetPage(env.codec, db, p.id) == Ok(None)
  {
    assert p.id in Ids(PagesOf(st));
  }

  /** On a first run against a remote whose default branch is `master`,
      the as-written clone fails and so does initialisation, while the
      corrected one gets past the mirror update. */
  lemma FirstRunWithMasterRemoteFails(env: Env, st: Startup)
    requires st.mirrorDisk.Missing? && st.remote.Ok? && st.remote.value.defaultRef == Mirror.MasterRef
    ensures InitializeAsWritten(env, st) == Err(SyncFailed(Mirror.Git(Mirror.Exists(Mirror.MasterRef))))
    ensures SyncMirror(st, true).Ok? <==> st.mirrorPresent
  {
  }

  /** The page records of `pages` can all be read back from `db`, each as
      its last version in `pages`. */
  ghost predicate AllStored(codec: Storage.Codec, db: Storage.Db, pages: seq<Page>) {
    forall p :: p in pages ==> Storage.GetPage(codec, db, p.id) == Ok(Some(LatestVersion(pages, p.id).value))
  }

  /** Every page of `pages` has exactly one document in `ix`, its last version. */
  ghost predicate AllIndexedOnce(ix: Search.Index, pages: seq<Page>) {
    forall p :: p in pages ==> Search.WithId(ix.docs, p.id) == [Search.DocOf(LatestVersion(pages, p.id).value)]
  }

  /** `initialize_components` as intended: both paths save the pages to the
      store and upsert them into the index; a full rebuild starts from an
      empty index. Every page then has one document and a readable record,
      so no hit on it is lost. */
  function InitializeComponents(env: Env, st: Startup): (r: Result<(Search.Index, Storage.Db), AppError>)
    ensures r.Ok? <==> SyncMirror(st, true).Ok? && Storage.AllEncode(env.codec, Storage.AppRule, PagesOf(st))
    ensures r.Ok? ==> r.value.0.schema == (if NeedsFullRebuild(st) then Search.AppSchema else st.indexDir.value.schema)
    ensures r.Ok? && (NeedsFullRebuild(st) || st.indexDir.value.schema.idIndexed) ==>
      AllIndexedOnce(r.value.0, PagesOf(st))
    ensures r.Ok? && Storage.RoundTrips(env.codec) ==> AllStored(env.codec, r.value.1, PagesOf(st))
    ensures r.Ok? && NeedsFullRebuild(st) ==>
      forall d :: d in r.value.0.docs ==> exists p :: p in PagesOf(st) && d == Search.DocOf(p)
  {
    var _ :- SyncMirror(st, true);
    var pages := PagesOf(st);
    var saved := Storage.SavePagesBatch(env.codec, Storage.AppRule, st.storageDir.GetOr(map[]), pages);
    if saved.result.Err? then Err(StoreFailed(saved.result.error))
    else
      var base := if NeedsFullRebuild(st) then Search.Index(Search.AppSchema, []) else st.indexDir.value;
      var engine := Search.UpdatePagesBatch(base, pages);
      StoredAfterBatch(env.codec, st.storageDir.GetOr(map[]), pages);
      if NeedsFullRebuild(st) then
        FreshBatchHoldsOnlyPages(pages);
        Ok((engine, saved.db))
      else Ok((engine, saved.db))
  }

  lemma StoredAfterBatch(codec: Storage.Codec, db: Storage.Db, pages: seq<Page>)
    requires Storage.SavePagesBatch(codec, Storage.AppRule, db, pages).result.Ok?
    ensures Storage.RoundTrips(codec) ==>
      AllStored(codec, Storage.SavePagesBatch(codec, Storage.AppRule, db, pages).db, pages)
  {
    if Storage.RoundTrips(codec) {
      forall p | p in pages
        ensures Storage.GetPage(codec, Storage.SavePagesBatch(codec, Storage.AppRule, db, pages).db, p.id)
          == Ok(Some(LatestVersion(pages, p.id).value))
      {
        Storage.BatchThenGet(codec, Storage.AppRule, db, pages, p);
      }
    }
  }

  /** Upserting into an empty index leaves only documents of the batch. */
  lemma {:induction false} FreshBatchHoldsOnlyPages(pages: seq<Page>)
    ensures forall d :: d in Search.UpdatePagesBatch(Search.Index(Search.AppSchema, []), pages).docs ==>
      exists p :: p in pages && d == Search.DocOf(p)
  {
    if |pages| > 0 {
      var n := |pages| - 1;
      var front := pages[..n];
      FreshBatchHoldsOnlyPages(front);
      var mid := Search.UpdatePagesBatch(Search.Index(Search.AppSchema, []), front);
      var kept := Search.DeletePage(mid, pages[n].id);
      assert Search.UpdatePagesBatch(Search.Index(Search.AppSchema, []), pages).docs
        == kept.docs + [Search.DocOf(pages[n])];
      forall d | d in kept.docs + [Search.DocOf(pages[n])] ensures exists p :: p in pages && d == Search.DocOf(p) {
        if d in kept.docs {
          var p :| p in front && d == Search.DocOf(p);
          assert p in pages;
        } else {
          assert pages[n] in pages;
        }
      }
    }
  }

  /** The thread `run` starts: both components are installed together on
      success, and the state is left as it was on failure. */
  function Run(s: AppState, init: Result<(Search.Index, Storage.Db), AppError>): (r: AppState)
    ensures init.Ok? ==> IsReady(r) && r.engine.value == init.value.0 && r.storage.value == init.value.1
    ensures init.Err? ==> r == s
  {
    match init
    case Ok((engine, db)) => AppState(Some(engine), Some(db))
    case Err(_) => s
  }

  /** The application is ready exactly when initialisation succeeded, and
      before that every search is refused. */
  lemma ReadyIffInitialised(env: Env, st: Startup, q: string)
    ensures !IsReady(InitialState)
    ensures GetSearchResults(env, InitialState, q) == Err(EngineNotInitialized)
    ensures IsReady(Run(InitialState, InitializeComponents(env, st))) <==> InitializeComponents(env, st).Ok?
  {
  }

  /** After the intended initialisation with a faithful encoding, every
      search hit on a page of the mirror is shown: none is dropped for a
      missing record. */
  lemma HitsOnMirrorPagesAreShown(env: Env, st: Startup, res: Search.SearchResult)
    requires Storage.RoundTrips(env.codec)
    requires InitializeComponents(env, st).Ok?
    requires exists p :: p in PagesOf(st) && p.id == res.id
    ensures Hydratable(env.codec, Run(InitialState, InitializeComponents(env, st)).storage.value, res)
  {
    var p :| p in PagesOf(st) && p.id == res.id;
    assert Storage.GetPage(env.codec, InitializeComponents(env, st).value.1, p.id)
      == Ok(Some(LatestVersion(PagesOf(st), p.id).value));
  }

  /** The documents of `ps` carry only the ids of `ps`. */
  lemma NoDocsOfOtherIds(ps: seq<Page>, id: string)
    requires id !in Ids(ps)
    ensures Search.WithId(Search.DocsOf(ps), id) == []
  {
    var docs := Search.DocsOf(ps);
    forall d | d in docs ensures d.id != Some(id) {
      var i :| 0 <= i < |docs| && docs[i] == d;
      assert ps[i] in ps;
    }
    Search.WithIdNone(docs, id);
  }

  /** Initialisation as written deletes nothing, on either path: a document
      or record whose id no longer comes from the mirror keeps its old
      documents in the index and its old record in the store. */
  lemma VanishedPagesRemain(env: Env, st: Startup, id: string)
    requires id !in Ids(PagesOf(st))
    requires InitializeAsWritten(env, st).Ok?
    ensures var before := st.indexDir.GetOr(Search.Index(Search.AppSchema, []));
      Search.WithId(InitializeAsWritten(env, st).value.0.docs, id) == Search.WithId(before.docs, id)
    ensures var db := st.storageDir.GetOr(map[]);
      id in db ==> id in InitializeAsWritten(env, st).value.1 && InitializeAsWritten(env, st).value.1[id] == db[id]
  {
    var pages := PagesOf(st);
    var before := st.indexDir.GetOr(Search.Index(Search.AppSchema, []));
    if NeedsFullRebuild(st) {
      var built := Search.BuildIndex(before, pages);
      assert built.docs == before.docs + Search.DocsOf(pages);
      Search.WithIdAppend(before.docs, Search.DocsOf(pages), id);
      NoDocsOfOtherIds(pages, id);
      assert Search.WithId(built.docs, id) == Search.WithId(before.docs, id);
    }
  }

  /** The intended initialisation deletes nothing either. */
  lemma IntendedKeepsVanishedPages(env: Env, st: Startup, id: string)
    requires !NeedsFullRebuild(st) && id !in Ids(PagesOf(st))
    requires InitializeComponents(env, st).Ok?
    ensures Search.WithId(InitializeComponents(env, st).value.0.docs, id) == Search.WithId(st.indexDir.value.docs, id)
    ensures id in st.storageDir.value ==>
      id in InitializeComponents(env, st).value.1
      && InitializeComponents(env, st).value.1[id] == st.storageDir.value[id]
  {
  }
}
