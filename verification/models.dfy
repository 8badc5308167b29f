/** The page record shared by the store, the index and the extractor
    (nlab-listary/src-tauri/src/models.rs). */
module Models {
  import opened Base

  /** One extracted page. `id` is the file's path relative to the mirror root. */
  datatype Page = Page(id: string, title: string, filePath: string, url: string, content: string)

  /** The record the user interface receives for one search hit. */
  datatype SearchIndex = SearchIndex(title: string, url: string)

  /** `NLabPage::new`: the identity of a page is its relative file path. */
  function NewPage(filePath: string, title: string, url: string, content: string): (p: Page)
    ensures p.id == p.filePath == filePath
    ensures p.title == title && p.url == url && p.content == content
  {
    Page(filePath, title, filePath, url, content)
  }

  /** The separator `id_from_url` splits on. */
  const ShowMarker: string := "/show/"

  /** `seg` is the text of `s` from `start` up to the next `/show/`, or to
      the end when no further `/show/` follows. */
  ghost predicate SegmentFrom(s: string, start: nat, seg: string) {
    && start + |seg| <= |s|
    && seg == s[start..start + |seg|]
    && (FirstAt(s[start..], ShowMarker, |seg|)
        || (start + |seg| == |s| && !Contains(s[start..], ShowMarker)))
  }

  /** `NLabPage::id_from_url`: the second piece of `url.split("/show/")`. */
  function IdFromUrl(url: string): (r: Option<string>)
    ensures r.None? <==> !Contains(url, ShowMarker)
    ensures r.Some? ==> exists i: nat ::
      FirstAt(url, ShowMarker, i) && SegmentFrom(url, i + |ShowMarker|, r.value)
  {
    match Find(url, ShowMarker)
    case None => None
    case Some(i) =>
      var start := i + |ShowMarker|;
      var rest := url[start..];
      match Find(rest, ShowMarker)
      case None =>
        assert rest == url[start..start + |rest|];
        assert SegmentFrom(url, start, rest);
        Some(rest)
      case Some(j) =>
        assert rest[..j] == url[start..start + j];
        assert SegmentFrom(url, start, rest[..j]);
        Some(rest[..j])
  }

  /** The ids of a list of pages. */
  function Ids(ps: seq<Page>): set<string> {
    set p | p in ps :: p.id
  }

  /** The last page of `ps` with identity `id`: the version a batch written in
      order leaves behind. */
  function LatestVersion(ps: seq<Page>, id: string): (r: Option<Page>)
    ensures r.None? <==> id !in Ids(ps)
    ensures r.Some? ==> r.value.id == id && exists k :: (0 <= k < |ps| && ps[k] == r.value
      && forall j :: k < j < |ps| ==> ps[j].id != id)
  {
    if |ps| == 0 then None
    else if ps[|ps| - 1].id == id then Some(ps[|ps| - 1])
    else
      var r := LatestVersion(ps[..|ps| - 1], id);
      assert Ids(ps) == Ids(ps[..|ps| - 1]) + {ps[|ps| - 1].id} by {
        assert ps == ps[..|ps| - 1] + [ps[|ps| - 1]];
      }
      r
  }

  /** The ids of a sequence are those before its last page and the last page's. */
  lemma IdsSnoc(ps: seq<Page>)
    requires |ps| > 0
    ensures Ids(ps) == Ids(ps[..|ps| - 1]) + {ps[|ps| - 1].id}
  {
    assert ps == ps[..|ps| - 1] + [ps[|ps| - 1]];
  }
}
