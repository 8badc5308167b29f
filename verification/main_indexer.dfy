/** The stand-alone indexer of the mirror binary (src/main.rs): its own title
    and content normalisation, and an abort-on-first-read-error walk, unlike
    the skip policy of `Parser.IndexLocalFiles`. */
module MainIndexer {
  import opened Base
  import opened Parser

  /** The binary's local page record: no id, no URL. */
  datatype MainPage = MainPage(filePath: string, title: string, content: string)

  datatype IndexError =
    | ReadFailed(path: Path)      // `fs::read_to_string(path)?`
    | PrefixPanicked(path: Path)  // `strip_prefix(repo_path).unwrap()` on a path outside the root

  const UntitledPage: string := "Untitled Page"
  const SiteName: string := "nLab"

  /** The heading text with `nLab` deleted and the ends trimmed; a heading
      that is absent or leaves nothing becomes "Untitled Page". */
  function NormalizeTitle(heading: Option<seq<string>>): (r: string)
    ensures r != ""
    ensures heading.None? ==> r == UntitledPage
    ensures heading.Some? ==>
      var stripped := RemoveAll(Join(heading.value, ""), SiteName);
      && (AllWhitespace(stripped) ==> r == UntitledPage)
      && (!AllWhitespace(stripped) ==> IsTrimOf(r, stripped))
  {
    match heading
    case None => UntitledPage
    case Some(texts) =>
      var t := Trim(RemoveAll(Join(texts, ""), SiteName));
      if t == "" then UntitledPage else t
  }

  lemma RemoveSiteNameExample()
    ensures RemoveAll("nnLabLab", SiteName) == "nLab"
  {
    var s := "nnLabLab";
    assert !OccursAt(s, SiteName, 0) by {
      assert s[0..4][1] != SiteName[1];
    }
    assert RemoveAll(s, SiteName) == [s[0]] + RemoveAll(s[1..], SiteName);
    assert s[1..] == "nLabLab";
    assert OccursAt("nLabLab", SiteName, 0) by {
      assert "nLabLab"[0..4] == SiteName;
    }
    assert RemoveAll("nLabLab", SiteName) == RemoveAll("nLabLab"[4..], SiteName);
    assert "nLabLab"[4..] == "Lab";
    RemoveAllShape("Lab", SiteName);
  }

  /** Deleting `nLab` once, left to right, can leave a new `nLab` behind:
      the title is not free of the site name in general. */
  lemma SiteNameCanSurvive()
    ensures NormalizeTitle(Some(["nnLabLab"])) == "nLab"
  {
    assert Join(["nnLabLab"], "") == "nnLabLab";
    RemoveSiteNameExample();
    TrimSiteName();
  }

  lemma TrimSiteName()
    ensures Trim(SiteName) == SiteName
  {
    assert !IsWhitespace(SiteName[0]);
    assert TrimStart(SiteName) == SiteName;
    assert !IsWhitespace(SiteName[3]);
    assert TrimEnd(SiteName) == SiteName;
  }

  /** The title of the first `h1#pageName`, its text nodes concatenated. */
  function ExtractMainTitle(doc: Document): (r: string)
    ensures r != ""
    ensures NoneSelected(doc, "h1", "pageName") ==> r == UntitledPage
    ensures forall i: nat :: FirstSelected(doc, "h1", "pageName", i) ==>
      var stripped := RemoveAll(Join(doc[i].texts, ""), SiteName);
      && r == NormalizeTitle(Some(doc[i].texts))
      && (AllWhitespace(stripped) ==> r == UntitledPage)
      && (!AllWhitespace(stripped) ==> IsTrimOf(r, stripped))
  {
    match SelectFirst(doc, "h1", "pageName")
    case None => NormalizeTitle(None)
    case Some(i) =>
      FirstSelectedUnique(doc, "h1", "pageName", i);
      NormalizeTitle(Some(doc[i].texts))
  }

  /** The text of the first `div#revision`, concatenated and collapsed; empty
      when the region is missing (the page is still recorded). */
  function ExtractMainContent(doc: Document): (r: string)
    ensures Collapsed(r)
    ensures NoneSelected(doc, "div", "revision") ==> r == ""
    ensures forall i: nat :: FirstSelected(doc, "div", "revision", i) ==>
      Words(r) == Words(Join(doc[i].texts, ""))
  {
    match SelectFirst(doc, "div", "revision")
    case None => ""
    case Some(i) =>
      FirstSelectedUnique(doc, "div", "revision", i);
      CollapseNormalises(Join(doc[i].texts, ""));
      Collapse(Join(doc[i].texts, ""))
  }

  /** One iteration of the loop body for an HTML file. */
  function PageOf(repo: Path, e: Entry): (r: Result<MainPage, IndexError>)
    ensures r.Err? <==> !(repo <= e.path) || e.contents.None?
    ensures r.Err? ==> r.error.path == e.path
    ensures r.Ok? ==> (r.value.filePath == PathString(e.path[|repo|..])
      && r.value.title != "" && Collapsed(r.value.content))
    ensures r.Ok? ==> (e.contents.Some?
      && r.value.title == ExtractMainTitle(e.contents.value)
      && r.value.content == ExtractMainContent(e.contents.value))
  {
    if !(repo <= e.path) then Err(PrefixPanicked(e.path))
    else match e.contents
      case None => Err(ReadFailed(e.path))
      case Some(doc) =>
        Ok(MainPage(PathString(e.path[|repo|..]), ExtractMainTitle(doc), ExtractMainContent(doc)))
  }

  /** The outcome of the loop body for each file, in order. */
  function Outcomes(repo: Path, es: seq<Entry>): (os: seq<Result<MainPage, IndexError>>)
    ensures |os| == |es|
    ensures forall k :: 0 <= k < |es| ==> os[k] == PageOf(repo, es[k])
  {
    if |es| == 0 then [] else [PageOf(repo, es[0])] + Outcomes(repo, es[1..])
  }

  /** `k` is the first outcome that fails, with error `e`. */
  ghost predicate FirstFailure(os: seq<Result<MainPage, IndexError>>, k: nat, e: IndexError) {
    && k < |os| && os[k] == Err(e)
    && forall j :: 0 <= j < k ==> os[j].Ok?
  }

  /** A first failure of the tail, after a head that succeeds, is the first
      failure of the whole list. */
  lemma FirstFailureShift(os: seq<Result<MainPage, IndexError>>, e: IndexError)
    requires |os| > 0 && os[0].Ok?
    requires exists k: nat :: FirstFailure(os[1..], k, e)
    ensures exists k: nat :: FirstFailure(os, k, e)
  {
    var k: nat :| FirstFailure(os[1..], k, e);
    assert os[1..][k] == os[k + 1];
    assert forall j :: 1 <= j < k + 1 ==> os[j] == os[1..][j - 1];
    assert FirstFailure(os, k + 1, e);
  }

  /** Running the outcomes in order with `?`: every page, or the first error. */
  function Collect(os: seq<Result<MainPage, IndexError>>): (r: Result<seq<MainPage>, IndexError>)
    ensures r.Ok? <==> forall k :: 0 <= k < |os| ==> os[k].Ok?
    ensures r.Ok? ==> |r.value| == |os| && forall k :: 0 <= k < |os| ==> os[k] == Ok(r.value[k])
    ensures r.Err? ==> exists k: nat :: FirstFailure(os, k, r.error)
  {
    if |os| == 0 then Ok([])
    else
      match os[0]
      case Err(e) =>
        assert FirstFailure(os, 0, e);
        Err(e)
      case Ok(page) =>
        match Collect(os[1..])
        case Err(e) =>
          FirstFailureShift(os, e);
          Err(e)
        case Ok(rest) =>
          assert forall k :: 1 <= k < |os| ==> os[k] == os[1..][k - 1];
          Ok([page] + rest)
  }

  /** The loop over the HTML files in walk order; the first failure ends it. */
  function PagesOf(repo: Path, es: seq<Entry>): (r: Result<seq<MainPage>, IndexError>)
    ensures r.Ok? <==> forall k :: 0 <= k < |es| ==> PageOf(repo, es[k]).Ok?
    ensures r.Ok? ==> (|r.value| == |es|
      && forall k :: 0 <= k < |es| ==> PageOf(repo, es[k]) == Ok(r.value[k]))
    ensures r.Err? ==> exists k: nat :: FirstFailure(Outcomes(repo, es), k, r.error)
  {
    Collect(Outcomes(repo, es))
  }

  /** `index_local_files` of the binary: the regular `.html` files, in walk
      order; any read error aborts the whole walk. */
  function IndexLocalFiles(repo: Path, walk: seq<WalkItem>): (r: Result<seq<MainPage>, IndexError>)
    ensures r.Ok? <==> forall e :: e in HtmlEntries(walk) ==> PageOf(repo, e).Ok?
    ensures r.Ok? ==> (|r.value| == |HtmlEntries(walk)|
      && forall k :: 0 <= k < |r.value| ==> PageOf(repo, HtmlEntries(walk)[k]) == Ok(r.value[k]))
    ensures r.Err? ==> exists k: nat :: FirstFailure(Outcomes(repo, HtmlEntries(walk)), k, r.error)
    ensures (exists e :: e in HtmlEntries(walk) && repo <= e.path && e.contents.None?) ==> r.Err?
  {
    PagesOf(repo, HtmlEntries(walk))
  }
}
