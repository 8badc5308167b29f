# nlab-listary core in Dafny

nlab-listary keeps a local mirror of the nLab HTML pages. It extracts a page record from each file: an id, a title, a path, a public URL and the text. It stores the records in an embedded key-value database and indexes them in a full-text index. The desktop application answers searches by joining the index hits with the stored records.

This project models that core as pure functions and proves properties of them:

- **`Models`**: the page record, `NLabPage::new` and `id_from_url`.
- **`Parser`**: the library extractor, `parse_html_file` and `index_local_files`. A file that fails is skipped and the walk goes on.
- **`MainIndexer`**: the mirror binary's own extractor. It normalises titles and collapses whitespace, and the first read error aborts the whole walk.
- **`Storage`**: both versions of the page store.
  - The desktop store has no size limit.
  - The mirror binary's store refuses records over 4096 bytes.
  - Both versions have an all-or-nothing batch, and `meta:` keys share one key space with page ids.
- **`Ranking`** and **`Search`**: both versions of the tantivy-backed index.
  - `build_index`, `update_page`, `delete_page` and `search_with_filters` in both versions.
  - `update_pages_batch`, which only the desktop version has.
  - In the desktop schema the `id` field is indexed. In the mirror binary's schema it is only stored, so deleting by id removes nothing and an update only appends.
- **`Progress`**: the checkout-progress throttle of `clone_with_progress`. Its `usize` subtraction wraps modulo 2^64.
- **`Mirror`**: `update_local_repository`, the fetch-head and fast-forward steps, and the clone.
- **`App`**: the desktop application in `lib.rs`.
  - `get_search_results`, `open_url` and `is_ready`.
  - The state installed by `run`.
  - `initialize_components`, both as written and as intended.

Some things become parameters instead of being modelled:

- **Query engine**: tantivy's query parser and BM25 scorer become a `QueryEngine` value, with a parse predicate and a score function.
- **Codec**: bincode becomes a `Codec` value, a pair of encode and decode functions. A lemma that needs decoding to invert encoding says so with `Storage.RoundTrips`.
- **File system and git**: the walk, the file contents, the outcome of the fetch and the merge analysis are all inputs.

## Model

| member | source | states |
|---|---|---|
| Models.NewPage | nlab-listary/src-tauri/src/models.rs:26-34 | A page's id is its relative file path; the other fields are stored as given |
| Models.IdFromUrl | nlab-listary/src-tauri/src/models.rs:36-38 | No result exactly when the url has no `/show/`; otherwise the text between the first `/show/` and the next one (or the end) |
| Parser.SelectFirst | src/parser.rs:105-131 | The element found is the first in document order that matches `tag#id`; no result means no element matches |
| Parser.ExtractTitle | src/parser.rs:105-120 | The first `h1#pageName`'s text nodes joined by spaces and trimmed of Unicode whitespace; empty when there is no heading |
| Parser.ExtractContent | src/parser.rs:122-131 | The first `div#revision`'s text nodes joined by spaces, untrimmed; empty when there is no such region |
| Parser.ExtractUrl | src/parser.rs:133-156 | Each error case (no edit link, no href, href outside `/nlab/edit/`) holds exactly when its condition holds; on success, the canonical base followed by the href after `/nlab/edit/` |
| Parser.ExtractedUrlRoundTrip | src/parser.rs:133-156 | For an edit link `/nlab/edit/<name>`, the extracted url is `https://ncatlab.org/nlab/show/<name>`, and `id_from_url` gives `<name>` back |
| Parser.IdFromCanonicalUrl | nlab-listary/src-tauri/src/models.rs:36-38 | `id_from_url` inverts the canonical address for any name without `/show/` |
| Parser.LastDot | src/parser.rs:48 | The position of the last `.` in a file name; no result means the name has no dot |
| Parser.ParseHtmlFile | src/parser.rs:81-103 | Prefix error iff the path lies outside the repository; inside it, an unreadable file is `FileReadError` with its path, and a URL failure is that very error; on success the page's id and path are the relative path and its title, content and url are the extracted ones; success iff the url extracts |
| Parser.HtmlEntries | src/parser.rs:44-48 | Every entry is a regular `.html` file that the walk visited, and every visited one is there; failed walk items are dropped |
| Parser.HtmlEntriesAppend | src/parser.rs:44-48 | The entries of a concatenated walk are those of its parts in order, and a single item gives its entry iff it is a visited regular `.html` file: one entry per such item, in walk order |
| Parser.IndexReport | src/parser.rs:36-79 | Pages and skipped files together number exactly the HTML files; each page is what some HTML file parses to, and each skipped entry names an HTML file and the error its parse gave |
| Parser.GatherSnoc | src/parser.rs:49-63 | One more parse outcome adds what the loop body adds for it: a page is pushed, `None` adds nothing, an error skips the path |
| Parser.EntriesSnoc | src/parser.rs:49-63 | Parsing one more HTML file adds what its outcome reports: its page, nothing, or its path with the error |
| Parser.IndexReportSnoc | src/parser.rs:44-65 | One more walk item adds what the loop body adds for it: nothing for a failed item or a non-HTML entry, otherwise the outcome of parsing that file |
| Parser.IndexReportIsLoop | src/parser.rs:36-79 | The gathered report equals the loop's, item by item: the pages are the `Ok(Some)` results in walk order and the skipped files the `Err` results in walk order, so one failure never stops the walk |
| Parser.IndexLocalFiles | src/parser.rs:36-79 | The run as a whole never fails; its pages are the pages the loop pushes, in walk order, at most one per HTML file, each what some HTML file parses to |
| Parser.ParseAllAppend | src/parser.rs:44-49 | Parsing a concatenation of entry lists gives the concatenated outcomes |
| MainIndexer.NormalizeTitle | src/main.rs:186-200 | A missing heading, or one that is only whitespace once `nLab` is deleted, gives "Untitled Page"; otherwise the result is the trimmed text left after deleting `nLab` |
| MainIndexer.SiteNameCanSurvive | src/main.rs:194-197 | One left-to-right deletion of `nLab` can leave `nLab` in the title ("nnLabLab" becomes "nLab") |
| MainIndexer.ExtractMainTitle | src/main.rs:186-200 | The title is never empty; with no `h1#pageName` it is "Untitled Page"; otherwise, with the first such heading's text joined and `nLab` deleted, it is "Untitled Page" when only whitespace is left and that text trimmed otherwise |
| MainIndexer.ExtractMainContent | src/main.rs:202-217 | The content has single spaces and no outer whitespace, and it has the same words as the region's text; empty when there is no region |
| MainIndexer.PageOf | src/main.rs:176-224 | A file outside the root (a panic in the source, here the `PrefixPanicked` error) or one that cannot be read is an error naming that file; otherwise a page with the relative path, the title and content extracted from the file's document, so a non-empty title and collapsed content |
| MainIndexer.PagesOf | src/main.rs:172-227 | Success iff every file yields a page, and then the pages come one per file in order; a failure is the error of the first failing file |
| MainIndexer.IndexLocalFiles | src/main.rs:160-231 | Success iff every HTML file yields a page, and then the k-th page is the one the k-th HTML file of the walk yields; a failure is the error of the first failing file; any unreadable HTML file inside the root makes the whole walk fail |
| Base.Trim | src/parser.rs:118 | The result is the input with its leading and trailing Unicode whitespace removed; empty exactly when the input is all whitespace |
| Base.CollapseNormalises | src/main.rs:209-213 | Collapsing whitespace keeps the words, leaves single spaces only, and is idempotent |
| Base.CollapseFixedPoints | src/main.rs:209-213 | A string is unchanged by collapsing iff it is already collapsed |
| Base.RemoveAllShape | src/main.rs:195 | Deleting a pattern never lengthens a string and leaves a string without the pattern unchanged |
| Storage.EncodeChecked | src/storage.rs:44-57 | A serialisation failure or an oversized record is refused with its own error; otherwise the result is the encoding |
| Storage.SavePage | nlab-listary/src-tauri/src/storage.rs:55-68 | On success the page's id maps to its encoding; a failure writes nothing; every other key is untouched |
| Storage.GetPage | nlab-listary/src-tauri/src/storage.rs:70-79 | An absent id reads as none; a present one as its decoding, or a deserialisation error |
| Storage.SaveThenGet | nlab-listary/src-tauri/src/storage.rs:55-79 | A saved page reads back unchanged |
| Storage.AppSaveOnlyFailsOnEncoding | nlab-listary/src-tauri/src/storage.rs:59-64 | With the size check commented out, the desktop store saves every page that encodes |
| Storage.MirrorSizeLimit | src/storage.rs:32-57 | The mirror store saves and returns a record of at most 4096 bytes; a larger one is refused with `PageSizeExceeded` and nothing changes |
| Storage.BuildBatch | src/storage.rs:71-89 | The batch exists iff every page encodes; its keys are exactly the pages' ids, each mapped to the encoding of its last version; a failure is the first failing page's error |
| Storage.SavePagesBatch | nlab-listary/src-tauri/src/storage.rs:82-100 | Success iff every page encodes; on failure nothing is written; ids outside the batch are untouched |
| Storage.BatchThenGet | nlab-listary/src-tauri/src/storage.rs:82-100 | After a batch, each id reads back as its last version in the batch |
| Storage.BatchIdempotent | nlab-listary/src-tauri/src/storage.rs:82-100 | Applying the same batch twice is the same as applying it once |
| Storage.MirrorBatchRefusesOversized | src/storage.rs:71-89 | One oversized page makes the mirror batch fail and write nothing |
| Storage.SetMetadata | nlab-listary/src-tauri/src/storage.rs:104-110 | Only `meta:` keys are written, with the value stored as is; any other key is refused and nothing changes |
| Storage.GetMetadata | nlab-listary/src-tauri/src/storage.rs:112-120 | A non-`meta:` key is refused exactly; a `meta:` key reads its raw bytes or none |
| Storage.MetadataRoundTrip | src/storage.rs:93-109 | A metadata value reads back unchanged |
| Storage.InvalidKeyRefused | nlab-listary/src-tauri/src/storage.rs:104-110 | Writing the key `invalid_key` is refused |
| Storage.MetadataShadowsPage | nlab-listary/src-tauri/src/storage.rs:55-120 | Pages and metadata share one key space: a metadata write under a page id that starts with `meta:` replaces that page |
| Ranking.Insert | nlab-listary/src-tauri/src/search.rs:173 | Inserting a hit into a ranked list keeps it ranked, adds exactly that hit, and adds nothing else |
| Ranking.Sort | nlab-listary/src-tauri/src/search.rs:173 | The hits ranked by descending score, ties by document order, as a permutation of the input |
| Ranking.TopK | nlab-listary/src-tauri/src/search.rs:173 | min(limit, n) hits, ranked, drawn from the input, and no omitted hit ranks above a kept one |
| Search.DocsOf | nlab-listary/src-tauri/src/search.rs:101-110 | One document per page, in order |
| Search.BuildIndex | nlab-listary/src-tauri/src/search.rs:95-117 | The existing documents are kept as they are, and one document per page is appended, in order |
| Search.RebuildDuplicates | nlab-listary/src-tauri/src/search.rs:95-117 | Building over an index that already holds a page gives that page two or more documents |
| Search.DeletePage | nlab-listary/src-tauri/src/search.rs:138-148 | With an indexed id, exactly the documents with that id are removed and the order of the rest is kept; with a stored-only id (src/search.rs:78) nothing changes |
| Search.DeleteIdempotent | src/search.rs:144-154 | Deleting twice is the same as deleting once |
| Search.UpdatePage | nlab-listary/src-tauri/src/search.rs:119-136 | With an indexed id, the page ends up with exactly one document and the other ids keep theirs; with a stored-only id a document is added next to the old ones |
| Search.MirrorUpdateAccumulates | src/search.rs:76-82 | In the mirror binary's schema, two updates of one page add two documents for it |
| Search.UpdatePagesBatch | nlab-listary/src-tauri/src/search.rs:210-242 | A desktop-only operation: every id of the batch ends up with exactly one document, its last version; documents of other ids keep their order; ids outside the batch are untouched. The model also applies it to the mirror binary's schema, which has no batch update, where it only appends |
| Search.EmptyBatchUnchanged | nlab-listary/src-tauri/src/search.rs:376-385 | An empty batch leaves the index as it was |
| Search.Hits | nlab-listary/src-tauri/src/search.rs:160-173 | Exactly the documents the query matches, each with its own score and position, in increasing position, so each document at most once |
| Search.AtLeast | nlab-listary/src-tauri/src/search.rs:177-179 | A hit is kept iff its score is at least the minimum, never more often than it occurs; with nothing below the minimum the list is unchanged |
| Search.AtLeastAppend | nlab-listary/src-tauri/src/search.rs:177-179 | Filtering a concatenation filters each part, and a single hit is kept iff it reaches the minimum, so the kept hits keep their order |
| Search.Selected | nlab-listary/src-tauri/src/search.rs:173-179 | At most `limit` hits, ranked, drawn from the matching hits as a sub-multiset, all over the minimum; a qualifying hit is left out only when `limit` hits ranking above it are kept |
| Search.SelectedOnce | nlab-listary/src-tauri/src/search.rs:173-179 | No document is selected twice: the selected hits have pairwise different positions |
| Search.ResultOf | nlab-listary/src-tauri/src/search.rs:181-195 | A stored field that is missing reads as the empty string |
| Search.Report | nlab-listary/src-tauri/src/search.rs:175-200 | One result per selected hit, in order, built from the hit's document |
| Search.ReportOrdered | nlab-listary/src-tauri/src/search.rs:173-179 | Reported scores are at least the minimum and never increase |
| Search.SearchWithFilters | nlab-listary/src-tauri/src/search.rs:154-206 | The only error is a query parse error, which happens exactly when the query does not parse; on success at most `limit` results, every score at least the minimum, in descending score order |
| Search.SearchDefault | nlab-listary/src-tauri/src/search.rs:150-152 | `search` is `search_with_filters` with both fields searched and a minimum of 0, so no negative score is reported |
| Search.NoThresholdKeepsTopK | src/search.rs:160-195 | When no match falls below the minimum, exactly min(limit, matches) results come back |
| Search.DefaultFields | nlab-listary/src-tauri/src/search.rs:166-170 | The parser's default fields always include the title and never the id; they include the content iff `title_only` is off |
| Search.TitleOnlyIgnoresContent | nlab-listary/src-tauri/src/search.rs:158-170 | With `title_only` and a query that names no field, two indexes that agree on ids and titles give the same results, whatever the content |
| Search.FieldQueryReadsContent | nlab-listary/src-tauri/src/search.rs:166-170 | `title_only` only sets the default fields: a query naming the content field still matches on content, and two indexes differing only there give different results |
| Progress.WrappingSub | src/git_ops.rs:63 | `usize` subtraction: the difference when no borrow is needed, otherwise the difference plus 2^64 |
| Progress.OnProgress | src/git_ops.rs:58-71 | Nothing is reported while the total is zero; moving forward, a step is reported iff it is 1000 past the last report or is the final step; the final step is always reported; a step behind the last report wraps around and is reported |
| Progress.Replay | src/main.rs:123-131 | Only steps that occurred are reported, and with a zero total nothing is |
| Progress.ReplaySpaced | src/git_ops.rs:58-71 | With non-decreasing steps, consecutive reports are at least 1000 apart unless the later one is the final step, and the throttle ends up holding the last report |
| Progress.ReplayEndsWithTotal | src/git_ops.rs:58-71 | A checkout that reaches its total reports the total last |
| Mirror.GetFetchHead | src/git_ops.rs:113-127 | The fetched commit when FETCH_HEAD has a target; a missing target is `NotFound` in the library and a panic in the binary (src/main.rs:63) |
| Mirror.FastForward | src/git_ops.rs:129-157 | The branch HEAD names is moved to the fetched commit and the tree is checked out; an unborn branch fails |
| Mirror.FastForwardReachesFetched | src/git_ops.rs:129-157 | After a fast-forward, HEAD names the fetched commit and the working tree holds it |
| Mirror.UpdateExisting | src/git_ops.rs:9-35 | Fetch errors propagate; up-to-date, a normal merge or any other analysis leaves the repository unchanged and succeeds; a fast-forward moves it |
| Mirror.OnlyFastForwardChanges | src/git_ops.rs:19-35 | If the repository changed, the analysis was a fast-forward, and HEAD is at the fetched commit |
| Mirror.Cloned | src/git_ops.rs:77 | A fresh clone holds one local branch, the remote's default, with HEAD on that branch at the remote's commit and its files checked out |
| Mirror.CreateBranch | src/git_ops.rs:84 | Creating a branch without force fails iff it exists; otherwise it is added and HEAD stays |
| Mirror.CloneAsWritten | src/git_ops.rs:45-90 | The clone fails iff the remote's default branch is `master`; otherwise HEAD is on a new `master` at the remote's commit |
| Mirror.CloneOfMasterRemoteFails | src/main.rs:139-147 | A remote whose default branch is `master` makes the clone fail with "exists" |
| Mirror.CloneWithProgress | src/git_ops.rs:77-89 | After the corrected clone, HEAD is on `master` at the remote's commit, the default branch is kept, and the tree matches HEAD |
| Mirror.CloneAgreesWhenNoConflict | src/git_ops.rs:80-87 | Wherever the clone as written succeeds, the corrected clone gives the same repository |
| Mirror.UpdateLocalRepository | src/git_ops.rs:8-43 | As written: a missing directory is cloned, and succeeds iff the remote's default branch is not `master`, otherwise failing with "exists"; a successful clone has HEAD on `master` at the remote's commit; a directory that is not a repository is `NotFound`; an existing repository is updated |
| Mirror.UpdateLocalRepositoryIntended | src/git_ops.rs:8-43 | With the corrected clone, a missing directory always clones to HEAD on `master` at the remote's commit; the other cases are as written |
| Mirror.UpdateAgreesExceptMasterClone | src/git_ops.rs:8-43 | The update as written and the corrected one differ exactly on a missing directory whose remote's default branch is `master` |
| App.IsReady | nlab-listary/src-tauri/src/lib.rs:119-125 | Ready iff both the engine and the storage are present |
| App.Hydrate | nlab-listary/src-tauri/src/lib.rs:46-58 | Each shown entry is a hit's title with its stored page's url; every hit with a readable record is shown; hits without one are dropped, and none are dropped when every record reads |
| App.HydrateAppend | nlab-listary/src-tauri/src/lib.rs:46-58 | The shown list of concatenated hits is the concatenation of the shown lists, and one hit is shown alone iff its record reads, so hits keep their order |
| App.GetSearchResults | nlab-listary/src-tauri/src/lib.rs:28-61 | Engine-missing and storage-missing errors come in that order; once ready, it fails iff the query does not parse; at most 10 entries, exactly the search hits that have a readable stored page |
| App.OpenUrl | nlab-listary/src-tauri/src/lib.rs:100-117 | The empty url is refused; any other url succeeds iff the opener does, and carries its error otherwise |
| App.SyncMirror | nlab-listary/src-tauri/src/lib.rs:179-183 | Success iff the mirror update succeeds and the mirror directory exists; an update error is reported as a sync failure carrying it |
| App.FirstRunWithMasterRemoteFails | nlab-listary/src-tauri/src/lib.rs:179-183 | On a first run against a remote whose default branch is `master`, initialisation as written fails with the clone's "exists" error, while the corrected sync depends only on the mirror directory |
| App.InitializeAsWritten | nlab-listary/src-tauri/src/lib.rs:171-211 | Success iff the sync (with the clone as written) succeeds and, on a full rebuild, every page encodes; a full rebuild appends every page onto the index it opens and saves the batch into the store it opens; the incremental path upserts the batch into the index and leaves the store as it was |
| App.RebuildOverSurvivingIndexDuplicates | nlab-listary/src-tauri/src/lib.rs:186-198 | When only the store directory is missing, a page already in the index ends up with two or more documents |
| App.IncrementalNewPageNeverShown | nlab-listary/src-tauri/src/lib.rs:199-209 | On the incremental path a page new to the mirror is indexed but has no stored record |
| App.InitializeComponents | nlab-listary/src-tauri/src/lib.rs:171-211 | Corrected initialisation: success iff the sync succeeds and every page encodes; every page has exactly one document and reads back from the store; a full rebuild holds only mirror pages |
| App.StoredAfterBatch | nlab-listary/src-tauri/src/lib.rs:89-95 | After a successful batch save, every page reads back as its last version |
| App.FreshBatchHoldsOnlyPages | nlab-listary/src-tauri/src/search.rs:210-242 | A batch upsert into an empty index yields only documents of the batch's pages |
| App.Run | nlab-listary/src-tauri/src/lib.rs:128-169 | On success both components are installed together; on failure the state stays as it was |
| App.ReadyIffInitialised | nlab-listary/src-tauri/src/lib.rs:128-169 | Before initialisation nothing is ready and every search is refused; afterwards the app is ready iff initialisation succeeded |
| App.HitsOnMirrorPagesAreShown | nlab-listary/src-tauri/src/lib.rs:46-58 | After the corrected initialisation, a hit on any mirror page has a stored record, so it is shown |
| App.VanishedPagesRemain | nlab-listary/src-tauri/src/lib.rs:186-209 | Initialisation as written deletes nothing on either path: the documents and the record of a page gone from the mirror remain as they were |
| App.IntendedKeepsVanishedPages | nlab-listary/src-tauri/src/lib.rs:199-209 | The corrected incremental initialisation also keeps the documents and record of a page gone from the mirror |

## Left out

- tantivy's tokeniser, query language and BM25 scoring are a `QueryEngine` parameter: a parse predicate and a score function of the query, the default fields and the document. Real scores also depend on statistics of the whole corpus, which the per-document function does not capture. A query that reads only its default fields is stated as `Search.FieldFree`; field-qualified queries such as `content:x` are left to the engine.
- Scores are `f32` in the source and `real` here; rounding is not modelled.
- Writer, commit, reader and directory I/O errors (`IoError`, `TantivyError`) are not produced. Every index operation is total, with the commit and the reader reload folded in.
- The I/O errors of `TantivySearch::new` and `Storage::new` are not modelled. An existing index or store directory is an input that the operation opens with its contents.
- `TopDocs::with_limit(0)` panics, so the search functions require `limit >= 1`.
- sled's durability and bincode's byte layout are not modelled. The codec is a parameter, and only its round trip is assumed, by the lemmas that need it.
- The libgit2 network transfer, the merge analysis computation and annotated-commit lookup errors are not modelled. The fetch result, the analysis and the remote are inputs.
- Remote-tracking references and the origin remote are not part of the repository model.
- scraper's HTML parsing and walkdir's traversal are not modelled. A document is a list of elements with their attributes and text nodes. A walk is the list of items it yields. A file that fails to read as UTF-8 has no contents.
- The `SelectorParseError` variant is not modelled: the selectors are constants that parse. `DatabaseError`, `PageNotFound` and `ParserError` are never produced by the modelled operations.
- `println!`, `eprintln!`, `emit` status events, the `RwLock` and its poisoning errors, and the initialisation thread are not modelled. Each step is one sequential call.
- `sync_local_repo` (lib.rs:63-98) is compiled out by a never-enabled feature. Only its save-then-update order is used, as evidence for the corrected initialisation.
- browser.rs (`open_url` becomes the `launch` parameter), the front end in app.rs, and the desktop entry point main.rs are not part of this model.
- src/lib.rs, src/models.rs and the binary's `main` are not part of this model beyond the binary's own page record (`MainIndexer.MainPage`).
- The desktop crate declares its own `git_ops` and `parser` modules, and those files are not part of this model. The model uses src/git_ops.rs and src/parser.rs for both.
- `SearchFilters::new` is the datatype constructor `Search.SearchFilters`.
- Progress.WrappingSub: a debug build panics on `usize` underflow. The model takes the release-build wrap-around instead.
- MainIndexer.PageOf: the `strip_prefix(..).unwrap()` panic at src/main.rs:178 is modelled as the `PrefixPanicked` error naming the file. walkdir never yields a path outside the root, so the case does not arise in a real walk.

## Findings

| source | as written | input that shows it | evidently intended | confidence | as-written member | corrected member |
|---|---|---|---|---|---|---|
| nlab-listary/src-tauri/src/lib.rs:186-198 | A full rebuild runs when either directory is missing. `TantivySearch::new` then opens the existing index, and `build_index` appends every page to it. | The store directory is deleted and the index directory is kept. Every page already indexed gets a second document, and each search reports it twice. | Start the rebuild from an empty index, or upsert, so that each page has one document. | not executed; high | App.RebuildOverSurvivingIndexDuplicates | App.InitializeComponents |
| nlab-listary/src-tauri/src/lib.rs:199-209 | The incremental path opens the store without saving the parsed pages. Only the index is updated. | A page added to the mirror since the last run gets an index document but no stored record. `get_search_results` then drops every hit on it. | Save the batch and then update the index, as `sync_local_repo` does at lib.rs:89-95. | not executed; high | App.IncrementalNewPageNeverShown | App.HitsOnMirrorPagesAreShown |
| src/git_ops.rs:80-87 | After the clone, `repo.branch("master", .., false)` creates `master` without force. | A remote whose default branch is `master`, which the clone has already created locally. Branch creation fails with "exists", so the update reports an error although the files are checked out. | Create `master` only when it is absent, or force it, and point HEAD at it. | not executed; medium | Mirror.CloneOfMasterRemoteFails | Mirror.CloneWithProgress |
