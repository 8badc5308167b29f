/** Extraction of page records from a mirror of HTML files (src/parser.rs).
    The HTML document is a list of elements in document order; each element
    carries its tag, attributes and the text nodes it contains. The directory
    walk is the list of items it yields, in order. */
module Parser {
  import opened Base
  import opened Models

  datatype Element = Element(tag: string, attrs: map<string, string>, texts: seq<string>)

  type Document = seq<Element>

  /** A path as its list of components. */
  type Path = seq<string>

  /** One file-system entry the walk visits; `contents` is `None` when reading
      the file as UTF-8 text fails. */
  datatype Entry = Entry(path: Path, isFile: bool, contents: Option<Document>)

  /** An item of the directory walk; failed items are dropped by the caller. */
  datatype WalkItem = Visited(entry: Entry) | WalkFailed

  datatype ParseHtmlError =
    | FileReadError(path: Path)
    | PathPrefixError
    | NoEditLinkFound
    | MissingHrefAttribute
    | UnexpectedHrefFormat(href: string)

  const CanonicalBase: string := "https://ncatlab.org/nlab/show/"
  const EditPrefix: string := "/nlab/edit/"

  // ---------------------------------------------------------------------------
  // Selection

  /** The CSS selector `tag#id` matches `e`. */
  predicate Selects(e: Element, tag: string, id: string) {
    e.tag == tag && "id" in e.attrs && e.attrs["id"] == id
  }

  /** `i` is the first element of `doc` that `tag#id` matches. */
  ghost predicate FirstSelected(doc: Document, tag: string, id: string, i: nat) {
    i < |doc| && Selects(doc[i], tag, id)
    && forall j :: 0 <= j < i ==> !Selects(doc[j], tag, id)
  }

  ghost predicate NoneSelected(doc: Document, tag: string, id: string) {
    forall j :: 0 <= j < |doc| ==> !Selects(doc[j], tag, id)
  }

  /** There is at most one first match. */
  lemma FirstSelectedUnique(doc: Document, tag: string, id: string, i: nat)
    requires FirstSelected(doc, tag, id, i)
    ensures forall j: nat :: FirstSelected(doc, tag, id, j) ==> j == i
  {
  }

  /** `document.select(tag#id).next()`, as the position of the element. */
  function SelectFirst(doc: Document, tag: string, id: string): (r: Option<nat>)
    ensures r.Some? ==> FirstSelected(doc, tag, id, r.value)
    ensures r.None? ==> NoneSelected(doc, tag, id)
  {
    SelectFrom(doc, tag, id, 0)
  }

  function SelectFrom(doc: Document, tag: string, id: string, from: nat): (r: Option<nat>)
    requires from <= |doc|
    requires forall j :: 0 <= j < from ==> !Selects(doc[j], tag, id)
    ensures r.Some? ==> FirstSelected(doc, tag, id, r.value)
    ensures r.None? ==> NoneSelected(doc, tag, id)
    decreases |doc| - from
  {
    if from == |doc| then None
    else if Selects(doc[from], tag, id) then Some(from)
    else SelectFrom(doc, tag, id, from + 1)
  }

  // ---------------------------------------------------------------------------
  // Title, content and URL

  /** `extract_title`: the text nodes of the first `h1#pageName`, joined by
      spaces and trimmed; empty when there is no such heading. */
  function ExtractTitle(doc: Document): (r: string)
    ensures NoneSelected(doc, "h1", "pageName") ==> r == ""
    ensures forall i: nat :: FirstSelected(doc, "h1", "pageName", i) ==>
      IsTrimOf(r, Join(doc[i].texts, " "))
  {
    match SelectFirst(doc, "h1", "pageName")
    case None => ""
    case Some(i) =>
      FirstSelectedUnique(doc, "h1", "pageName", i);
      Trim(Join(doc[i].texts, " "))
  }

  /** `extract_content`: the text nodes of the first `div#revision`, joined by
      spaces, neither trimmed nor collapsed; empty when there is no such region. */
  function ExtractContent(doc: Document): (r: string)
    ensures NoneSelected(doc, "div", "revision") ==> r == ""
    ensures forall i: nat :: FirstSelected(doc, "div", "revision", i) ==>
      r == Join(doc[i].texts, " ")
  {
    match SelectFirst(doc, "div", "revision")
    case None => ""
    case Some(i) =>
      FirstSelectedUnique(doc, "div", "revision", i);
      Join(doc[i].texts, " ")
  }

  /** `extract_url`: the `href` of the first `a#edit`, which must start with
      `/nlab/edit/`, rewritten into the public `/nlab/show/` address. */
  function ExtractUrl(doc: Document): (r: Result<string, ParseHtmlError>)
    ensures r == Err(NoEditLinkFound) <==> NoneSelected(doc, "a", "edit")
    ensures r == Err(MissingHrefAttribute) <==>
      exists i: nat :: FirstSelected(doc, "a", "edit", i) && "href" !in doc[i].attrs
    ensures r.Err? && r.error.UnexpectedHrefFormat? ==>
      exists i: nat :: FirstSelected(doc, "a", "edit", i) && "href" in doc[i].attrs
        && doc[i].attrs["href"] == r.error.href && !(EditPrefix <= r.error.href)
    ensures r.Ok? ==>
      exists i: nat :: FirstSelected(doc, "a", "edit", i) && "href" in doc[i].attrs
        && EditPrefix <= doc[i].attrs["href"]
        && r.value == CanonicalBase + doc[i].attrs["href"][|EditPrefix|..]
    ensures r.Ok? || r.error.NoEditLinkFound? || r.error.MissingHrefAttribute?
      || r.error.UnexpectedHrefFormat?
  {
    match SelectFirst(doc, "a", "edit")
    case None => Err(NoEditLinkFound)
    case Some(i) =>
      if "href" !in doc[i].attrs then Err(MissingHrefAttribute)
      else
        var href := doc[i].attrs["href"];
        if EditPrefix <= href then Ok(CanonicalBase + href[|EditPrefix|..])
        else Err(UnexpectedHrefFormat(href))
  }

  /** No `/show/` starts inside the canonical base address before its own. */
  lemma CanonicalBaseFirstShow(name: string)
    ensures FirstAt(CanonicalBase + name, ShowMarker, 24)
  {
    var url := CanonicalBase + name;
    assert url[..30] == CanonicalBase;
    assert OccursAt(url, ShowMarker, 24) by {
      assert url[24..30] == CanonicalBase[24..30];
    }
    forall j: nat | j < 24 ensures !OccursAt(url, ShowMarker, j) {
      assert url[j] == CanonicalBase[j] && url[j + 1] == CanonicalBase[j + 1];
      if j == 6 || j == 7 || j == 19 {
        assert url[j + 1] != ShowMarker[1];
      } else {
        assert url[j] != ShowMarker[0];
      }
    }
  }

  /** The page name behind a canonical address is recovered by `id_from_url`,
      provided the name itself contains no `/show/`. */
  lemma {:induction false} IdFromCanonicalUrl(name: string)
    requires !Contains(name, ShowMarker)
    ensures IdFromUrl(CanonicalBase + name) == Some(name)
  {
    var url := CanonicalBase + name;
    CanonicalBaseFirstShow(name);
    var r := IdFromUrl(url);
    assert r.Some?;
    var i: nat :| FirstAt(url, ShowMarker, i) && SegmentFrom(url, i + |ShowMarker|, r.value);
    assert url[30..] == name;
  }

  /** A successfully extracted URL names the edit link's page, and
      `id_from_url` gives that page name back. */
  lemma ExtractedUrlRoundTrip(doc: Document, name: string)
    requires !Contains(name, ShowMarker)
    requires exists i: nat :: (FirstSelected(doc, "a", "edit", i) && "href" in doc[i].attrs
      && doc[i].attrs["href"] == EditPrefix + name)
    ensures ExtractUrl(doc) == Ok(CanonicalBase + name)
    ensures IdFromUrl(ExtractUrl(doc).value) == Some(name)
  {
    var i: nat :| FirstSelected(doc, "a", "edit", i) && "href" in doc[i].attrs
      && doc[i].attrs["href"] == EditPrefix + name;
    var s := SelectFirst(doc, "a", "edit");
    assert s == Some(i);
    assert (EditPrefix + name)[|EditPrefix|..] == name;
    IdFromCanonicalUrl(name);
  }

  // ---------------------------------------------------------------------------
  // One file

  /** Rust's `to_string_lossy` of a relative path. */
  function PathString(p: Path): string {
    Join(p, "/")
  }

  /** Position of the last `.` in a file name. */
  function LastDot(name: string): (r: Option<nat>)
    ensures r.Some? ==> (r.value < |name| && name[r.value] == '.'
      && forall k :: r.value < k < |name| ==> name[k] != '.')
    ensures r.None? ==> forall k :: 0 <= k < |name| ==> name[k] != '.'
  {
    if |name| == 0 then None
    else if name[|name| - 1] == '.' then Some(|name| - 1)
    else LastDot(name[..|name| - 1])
  }

  /** Rust's `Path::extension` of a file name: the text after the last `.`,
      unless there is none or the only dot starts the name. */
  function Extension(name: string): Option<string> {
    match LastDot(name)
    case None => None
    case Some(0) => None
    case Some(k) => Some(name[k + 1..])
  }

  /** The walk keeps a path when it is a regular file with extension `html`. */
  predicate IsHtmlFile(e: Entry) {
    e.isFile && |e.path| > 0 && Extension(e.path[|e.path| - 1]) == Some("html")
  }

  /** `parse_html_file`: strip the repository prefix, read the file, extract
      title, content and URL; only a prefix, read or URL failure is an error. */
  function ParseHtmlFile(e: Entry, repo: Path): (r: Result<Option<Page>, ParseHtmlError>)
    ensures r == Err(PathPrefixError) <==> !(repo <= e.path)
    ensures r.Err? && r.error.FileReadError? ==> repo <= e.path && e.contents.None? && r.error.path == e.path
    ensures r.Ok? ==> r.value.Some?
    ensures r.Ok? ==> (repo <= e.path && e.contents.Some?
      && var p := r.value.value;
         && p.id == p.filePath == PathString(e.path[|repo|..])
         && p.title == ExtractTitle(e.contents.value)
         && p.content == ExtractContent(e.contents.value)
         && Ok(p.url) == ExtractUrl(e.contents.value))
    ensures repo <= e.path && e.contents.Some? ==>
      (r.Ok? <==> ExtractUrl(e.contents.value).Ok?)
    ensures repo <= e.path && e.contents.None? ==> r == Err(FileReadError(e.path))
    ensures repo <= e.path && e.contents.Some? && ExtractUrl(e.contents.value).Err? ==>
      r == Err(ExtractUrl(e.contents.value).error)
  {
    if !(repo <= e.path) then Err(PathPrefixError)
    else
      var relative := PathString(e.path[|repo|..]);
      match e.contents
      case None => Err(FileReadError(e.path))
      case Some(doc) =>
        var title := ExtractTitle(doc);
        var content := ExtractContent(doc);
        match ExtractUrl(doc)
        case Err(x) => Err(x)
        case Ok(url) => Ok(Some(NewPage(relative, title, url, content)))
  }

  // ---------------------------------------------------------------------------
  // The whole mirror

  /** The entries of the walk that the loop parses, in walk order. */
  function HtmlEntries(walk: seq<WalkItem>): (es: seq<Entry>)
    ensures |es| <= |walk|
    ensures forall e :: e in es ==> IsHtmlFile(e) && Visited(e) in walk
    ensures forall k :: 0 <= k < |walk| && walk[k].Visited? && IsHtmlFile(walk[k].entry) ==>
      walk[k].entry in es
  {
    if |walk| == 0 then []
    else
      var front := HtmlEntries(walk[..|walk| - 1]);
      var last := walk[|walk| - 1];
      assert forall k :: 0 <= k < |walk| - 1 ==> walk[..|walk| - 1][k] == walk[k];
      if last.Visited? && IsHtmlFile(last.entry) then front + [last.entry] else front
  }

  /** The entries of a walk are those of its parts, in order, and one item
      contributes its entry exactly when it is a visited regular `.html`
      file: the entries follow the walk, once per item. */
  lemma {:induction false} HtmlEntriesAppend(a: seq<WalkItem>, b: seq<WalkItem>)
    ensures HtmlEntries(a + b) == HtmlEntries(a) + HtmlEntries(b)
    ensures |a| == 1 ==>
      HtmlEntries(a) == (if a[0].Visited? && IsHtmlFile(a[0].entry) then [a[0].entry] else [])
  {
    if |b| == 0 {
      assert a + b == a;
    } else {
      var n := |b| - 1;
      var t := if b[n].Visited? && IsHtmlFile(b[n].entry) then [b[n].entry] else [];
      assert a + b == (a + b[..n]) + [b[n]];
      assert b == b[..n] + [b[n]];
      calc {
        HtmlEntries(a + b);
        { HtmlEntriesSnoc(a + b[..n], b[n]); }
        HtmlEntries(a + b[..n]) + t;
        { HtmlEntriesAppend(a, b[..n]); }
        (HtmlEntries(a) + HtmlEntries(b[..n])) + t;
        { EntriesAssoc(HtmlEntries(a), HtmlEntries(b[..n]), t); }
        HtmlEntries(a) + (HtmlEntries(b[..n]) + t);
        { HtmlEntriesSnoc(b[..n], b[n]); }
        HtmlEntries(a) + HtmlEntries(b);
      }
    }
    if |a| == 1 {
      assert a == [] + [a[0]];
      HtmlEntriesSnoc([], a[0]);
    }
  }

  lemma EntriesAssoc(x: seq<Entry>, y: seq<Entry>, z: seq<Entry>)
    ensures (x + y) + z == x + (y + z)
  {
  }

  /** One more walk item adds its entry iff it is a visited `.html` file. */
  lemma HtmlEntriesSnoc(front: seq<WalkItem>, w: WalkItem)
    ensures HtmlEntries(front + [w])
      == HtmlEntries(front) + (if w.Visited? && IsHtmlFile(w.entry) then [w.entry] else [])
  {
    assert (front + [w])[..|front|] == front;
    assert (front + [w])[|front|] == w;
  }

  /** What `index_local_files` gathers: the pages parsed, and the files skipped
      with the reason. */
  datatype Report = Report(pages: seq<Page>, skipped: seq<(Path, ParseHtmlError)>)

  /** The outcome of `parse_html_file` for each entry, in order. */
  function ParseAll(repo: Path, es: seq<Entry>): (os: seq<Result<Option<Page>, ParseHtmlError>>)
    ensures |os| == |es|
    ensures forall k :: 0 <= k < |os| && os[k].Ok? ==> os[k].value.Some?
  {
    if |es| == 0 then [] else [ParseHtmlFile(es[0], repo)] + ParseAll(repo, es[1..])
  }

  /** Outcome `k` is the parse of entry `k`. */
  lemma {:induction false} ParseAllAt(repo: Path, es: seq<Entry>, k: nat)
    requires k < |es|
    ensures ParseAll(repo, es)[k] == ParseHtmlFile(es[k], repo)
    decreases k
  {
    if k > 0 {
      ParseAllAt(repo, es[1..], k - 1);
    }
  }

  /** Each entry's path next to its outcome. */
  function WithPaths(es: seq<Entry>, os: seq<Result<Option<Page>, ParseHtmlError>>)
    : (ps: seq<(Path, Result<Option<Page>, ParseHtmlError>)>)
    requires |os| == |es|
    ensures |ps| == |es|
    ensures forall i :: 0 <= i < |es| ==> ps[i] == (es[i].path, os[i])
  {
    if |es| == 0 then [] else [(es[0].path, os[0])] + WithPaths(es[1..], os[1..])
  }

  /** Dropping the last entry keeps every remaining pairing. */
  lemma {:induction false} WithPathsPrefix(es: seq<Entry>, os: seq<Result<Option<Page>, ParseHtmlError>>, n: nat)
    requires |os| == |es| && n <= |es|
    ensures forall o :: o in os[..n] ==> o in os
    ensures forall q :: q in WithPaths(es[..n], os[..n]) ==> q in WithPaths(es, os)
  {
    var front := WithPaths(es[..n], os[..n]);
    var whole := WithPaths(es, os);
    forall q | q in front ensures q in whole {
      var i :| 0 <= i < n && front[i] == q;
      assert whole[i] == q;
    }
  }

  /** The match in the loop body, over the outcomes in order: a page is
      pushed, a failure goes on the skip list with its path. */
  function Gather(es: seq<Entry>, os: seq<Result<Option<Page>, ParseHtmlError>>): (r: Report)
    requires |os| == |es|
    requires forall k :: 0 <= k < |os| && os[k].Ok? ==> os[k].value.Some?
    ensures |r.pages| + |r.skipped| == |es|
    ensures forall p :: p in r.pages ==> Ok(Some(p)) in os
    ensures forall item :: item in r.skipped ==> (item.0, Err(item.1)) in WithPaths(es, os)
  {
    if |es| == 0 then Report([], [])
    else
      var n := |es| - 1;
      assert forall k :: 0 <= k < n ==> os[..n][k] == os[k];
      var front := Gather(es[..n], os[..n]);
      WithPathsPrefix(es, os, n);
      match os[n]
      case Ok(Some(page)) =>
        Report(front.pages + [page], front.skipped)
      case Ok(None) => assert false; front
      case Err(x) =>
        assert WithPaths(es, os)[n] == (es[n].path, Err(x));
        Report(front.pages, front.skipped + [(es[n].path, x)])
  }

  /** Parse each entry and gather the outcomes. */
  function ParseEntries(repo: Path, es: seq<Entry>): (r: Report)
    ensures |r.pages| + |r.skipped| == |es|
    ensures forall k :: 0 <= k < |r.pages| ==> ParsedFrom(repo, es, r.pages[k])
    ensures forall k :: 0 <= k < |r.skipped| ==> SkippedFrom(repo, es, r.skipped[k])
  {
    var r := Gather(es, ParseAll(repo, es));
    GatherProvenance(repo, es, r);
    r
  }

  /** The report gathered over the whole walk. */
  function IndexReport(repo: Path, walk: seq<WalkItem>): (r: Report)
    ensures |r.pages| + |r.skipped| == |HtmlEntries(walk)|
    ensures forall k :: 0 <= k < |r.pages| ==> ParsedFrom(repo, HtmlEntries(walk), r.pages[k])
    ensures forall k :: 0 <= k < |r.skipped| ==> SkippedFrom(repo, HtmlEntries(walk), r.skipped[k])
  {
    ParseEntries(repo, HtmlEntries(walk))
  }

  /** `index_local_files`: every HTML file is parsed on its own, a failure
      puts the file on the skip list and the walk goes on, and the run as a
      whole never fails. The pages are those the loop pushes, in order. */
  function IndexLocalFiles(repo: Path, walk: seq<WalkItem>): (r: Result<seq<Page>, ParseHtmlError>)
    ensures r.Ok?
    ensures r.value == LoopReport(repo, walk).pages
    ensures |r.value| <= |HtmlEntries(walk)|
    ensures forall k :: 0 <= k < |r.value| ==> ParsedFrom(repo, HtmlEntries(walk), r.value[k])
  {
    IndexReportIsLoop(repo, walk);
    Ok(IndexReport(repo, walk).pages)
  }

  // The loop of `index_local_files`, one walk item at a time.

  function Combine(x: Report, y: Report): Report {
    Report(x.pages + y.pages, x.skipped + y.skipped)
  }

  /** What one outcome of `parse_html_file` adds: a page is pushed, `None`
      adds nothing, an error puts the path on the skip list. */
  function OutcomeReport(path: Path, o: Result<Option<Page>, ParseHtmlError>): Report {
    match o
    case Ok(Some(p)) => Report([p], [])
    case Ok(None) => Report([], [])
    case Err(x) => Report([], [(path, x)])
  }

  /** What one walk item adds: failed items and anything but a regular
      `.html` file add nothing. */
  function ItemReport(repo: Path, w: WalkItem): Report {
    if w.Visited? && IsHtmlFile(w.entry) then OutcomeReport(w.entry.path, ParseHtmlFile(w.entry, repo))
    else Report([], [])
  }

  /** The state of the loop after the whole walk, item by item. */
  function LoopReport(repo: Path, walk: seq<WalkItem>): Report {
    if |walk| == 0 then Report([], [])
    else Combine(LoopReport(repo, walk[..|walk| - 1]), ItemReport(repo, walk[|walk| - 1]))
  }

  lemma {:induction false} ParseAllAppend(repo: Path, a: seq<Entry>, b: seq<Entry>)
    ensures ParseAll(repo, a + b) == ParseAll(repo, a) + ParseAll(repo, b)
  {
    if |a| > 0 {
      assert (a + b)[0] == a[0];
      assert (a + b)[1..] == a[1..] + b;
      ParseAllAppend(repo, a[1..], b);
    } else {
      assert a + b == b;
    }
  }

  /** Gathering one more outcome adds what that outcome reports. */
  lemma GatherSnoc(es: seq<Entry>, os: seq<Result<Option<Page>, ParseHtmlError>>,
                   e: Entry, o: Result<Option<Page>, ParseHtmlError>)
    requires |os| == |es|
    requires forall k :: 0 <= k < |os| && os[k].Ok? ==> os[k].value.Some?
    requires o.Ok? ==> o.value.Some?
    ensures Gather(es + [e], os + [o]) == Combine(Gather(es, os), OutcomeReport(e.path, o))
  {
    var n := |es|;
    assert (es + [e])[..n] == es && (os + [o])[..n] == os;
    assert (es + [e])[n] == e && (os + [o])[n] == o;
    var front := Gather(es, os);
    assert front.pages + [] == front.pages && front.skipped + [] == front.skipped;
  }

  /** The gathered report grows by one walk item as the loop does. */
  lemma IndexReportSnoc(repo: Path, walk: seq<WalkItem>)
    requires |walk| > 0
    ensures IndexReport(repo, walk) == Combine(IndexReport(repo, walk[..|walk| - 1]), ItemReport(repo, walk[|walk| - 1]))
  {
    var n := |walk| - 1;
    var w := walk[n];
    assert walk == walk[..n] + [w];
    HtmlEntriesAppend(walk[..n], [w]);
    var front := HtmlEntries(walk[..n]);
    if w.Visited? && IsHtmlFile(w.entry) {
      EntriesSnoc(repo, front, w.entry);
    } else {
      var before := ParseEntries(repo, front);
      assert front + [] == front;
      assert before.pages + [] == before.pages && before.skipped + [] == before.skipped;
    }
  }

  /** Parsing one more entry adds what its outcome reports. */
  lemma EntriesSnoc(repo: Path, es: seq<Entry>, e: Entry)
    ensures ParseEntries(repo, es + [e]) == Combine(ParseEntries(repo, es), OutcomeReport(e.path, ParseHtmlFile(e, repo)))
  {
    ParseAllAppend(repo, es, [e]);
    var o := ParseHtmlFile(e, repo);
    assert ParseAll(repo, [e]) == [o];
    GatherSnoc(es, ParseAll(repo, es), e, o);
  }

  /** The gathered report is the loop's: every page and every skipped file,
      in walk order. */
  lemma {:induction false} IndexReportIsLoop(repo: Path, walk: seq<WalkItem>)
    ensures IndexReport(repo, walk) == LoopReport(repo, walk)
  {
    if |walk| > 0 {
      IndexReportIsLoop(repo, walk[..|walk| - 1]);
      IndexReportSnoc(repo, walk);
    } else {
      assert HtmlEntries(walk) == [];
    }
  }

  /** Some entry parsed to page `p`. */
  ghost predicate ParsedFrom(repo: Path, es: seq<Entry>, p: Page) {
    exists e :: e in es && ParseHtmlFile(e, repo) == Ok(Some(p))
  }

  /** Some entry at path `item.0` failed to parse with error `item.1`. */
  ghost predicate SkippedFrom(repo: Path, es: seq<Entry>, item: (Path, ParseHtmlError)) {
    exists e :: e in es && e.path == item.0 && ParseHtmlFile(e, repo) == Err(item.1)
  }

  /** A gathered page came from some entry that parsed to it. */
  lemma {:induction false} PageProvenance(repo: Path, es: seq<Entry>, os: seq<Result<Option<Page>, ParseHtmlError>>, p: Page)
    requires os == ParseAll(repo, es)
    requires Ok(Some(p)) in os
    ensures ParsedFrom(repo, es, p)
  {
    var i :| 0 <= i < |os| && os[i] == Ok(Some(p));
    ParseAllAt(repo, es, i);
    assert es[i] in es;
  }

  /** A skipped file is some entry whose parse failed with the recorded error. */
  lemma {:induction false} SkipProvenance(repo: Path, es: seq<Entry>, os: seq<Result<Option<Page>, ParseHtmlError>>,
                       item: (Path, ParseHtmlError))
    requires os == ParseAll(repo, es)
    requires (item.0, Err(item.1)) in WithPaths(es, os)
    ensures SkippedFrom(repo, es, item)
  {
    var ps := WithPaths(es, os);
    var i :| 0 <= i < |ps| && ps[i] == (item.0, Err(item.1));
    ParseAllAt(repo, es, i);
    assert es[i] in es;
  }

  /** What the gathered report holds, stated with the entries themselves. */
  lemma {:induction false} GatherProvenance(repo: Path, es: seq<Entry>, r: Report)
    requires r == Gather(es, ParseAll(repo, es))
    ensures forall k :: 0 <= k < |r.pages| ==> ParsedFrom(repo, es, r.pages[k])
    ensures forall k :: 0 <= k < |r.skipped| ==> SkippedFrom(repo, es, r.skipped[k])
  {
    var os := ParseAll(repo, es);
    forall k | 0 <= k < |r.pages| ensures ParsedFrom(repo, es, r.pages[k]) {
      assert r.pages[k] in r.pages;
      PageProvenance(repo, es, os, r.pages[k]);
    }
    forall k | 0 <= k < |r.skipped| ensures SkippedFrom(repo, es, r.skipped[k]) {
      assert r.skipped[k] in r.skipped;
      SkipProvenance(repo, es, os, r.skipped[k]);
    }
  }

}
