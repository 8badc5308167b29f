/** The full-text index (both versions of search.rs). The index is the
    sequence of its documents in insertion order; deleting a term removes
    every document whose indexed `id` equals it. Commit and reader reload
    are folded into each operation, so a change is visible at once. The
    query parser and the relevance score are a `QueryEngine` parameter. */
module Search {
  import opened Base
  import opened Models
  import opened Ranking

  /** Whether the `id` field is indexed, so that a term-delete on it can
      match a document. */
  datatype Schema = Schema(idIndexed: bool)

  /** nlab-listary/src-tauri/src/search.rs: `id` is STRING | STORED. */
  const AppSchema: Schema := Schema(true)

  /** src/search.rs: `id` is STORED only. */
  const MirrorSchema: Schema := Schema(false)

  /** A stored document; a field may be absent in a document read back. */
  datatype Doc = Doc(id: Option<string>, title: Option<string>, content: Option<string>)

  datatype Index = Index(schema: Schema, docs: seq<Doc>)

  /** The document the writer adds for a page. */
  function DocOf(p: Page): Doc {
    Doc(Some(p.id), Some(p.title), Some(p.content))
  }

  function DocsOf(ps: seq<Page>): (ds: seq<Doc>)
    ensures |ds| == |ps|
    ensures forall i :: 0 <= i < |ps| ==> ds[i] == DocOf(ps[i])
  {
    if |ps| == 0 then [] else [DocOf(ps[0])] + DocsOf(ps[1..])
  }

  /** `d` carries one of the ids in `ids`. */
  predicate Tagged(d: Doc, ids: set<string>) {
    d.id.Some? && d.id.value in ids
  }

  /** The documents with identity `id`, in index order. */
  function WithId(docs: seq<Doc>, id: string): seq<Doc> {
    if |docs| == 0 then []
    else (if docs[0].id == Some(id) then [docs[0]] else []) + WithId(docs[1..], id)
  }

  /** The documents whose identity is not in `ids`, in index order. */
  function Outside(docs: seq<Doc>, ids: set<string>): seq<Doc> {
    if |docs| == 0 then []
    else (if Tagged(docs[0], ids) then [] else [docs[0]]) + Outside(docs[1..], ids)
  }

  lemma WithIdAppend(a: seq<Doc>, b: seq<Doc>, id: string)
    ensures WithId(a + b, id) == WithId(a, id) + WithId(b, id)
  {
    if |a| > 0 {
      assert (a + b)[1..] == a[1..] + b;
      WithIdAppend(a[1..], b, id);
    } else {
      assert a + b == b;
    }
  }

  lemma OutsideAppend(a: seq<Doc>, b: seq<Doc>, ids: set<string>)
    ensures Outside(a + b, ids) == Outside(a, ids) + Outside(b, ids)
  {
    if |a| > 0 {
      assert (a + b)[1..] == a[1..] + b;
      OutsideAppend(a[1..], b, ids);
    } else {
      assert a + b == b;
    }
  }

  lemma WithIdOutside(docs: seq<Doc>, ids: set<string>, id: string)
    ensures WithId(Outside(docs, ids), id) == if id in ids then [] else WithId(docs, id)
  {
    if |docs| > 0 {
      var head := if Tagged(docs[0], ids) then [] else [docs[0]];
      WithIdAppend(head, Outside(docs[1..], ids), id);
      WithIdOutside(docs[1..], ids, id);
    }
  }

  lemma OutsideOutside(docs: seq<Doc>, s: set<string>, t: set<string>)
    ensures Outside(Outside(docs, s), t) == Outside(docs, s + t)
  {
    if |docs| > 0 {
      var head := if Tagged(docs[0], s) then [] else [docs[0]];
      OutsideAppend(head, Outside(docs[1..], s), t);
      OutsideOutside(docs[1..], s, t);
    }
  }

  lemma OutsideMembers(docs: seq<Doc>, ids: set<string>)
    ensures forall d :: d in Outside(docs, ids) <==> d in docs && !Tagged(d, ids)
  {
    if |docs| > 0 {
      OutsideMembers(docs[1..], ids);
      assert docs == [docs[0]] + docs[1..];
    }
  }

  lemma WithIdMembers(docs: seq<Doc>, id: string)
    ensures forall d :: d in WithId(docs, id) <==> d in docs && d.id == Some(id)
  {
    if |docs| > 0 {
      WithIdMembers(docs[1..], id);
      assert docs == [docs[0]] + docs[1..];
    }
  }

  /** No document carries `id`, so none is selected. */
  lemma {:induction false} WithIdNone(docs: seq<Doc>, id: string)
    requires forall d :: d in docs ==> d.id != Some(id)
    ensures WithId(docs, id) == []
  {
    if |docs| > 0 {
      assert docs[0] in docs;
      assert forall d :: d in docs[1..] ==> d in docs;
      WithIdNone(docs[1..], id);
    }
  }

  /** `build_index`: every page is added, in order, and nothing is deleted. */
  function BuildIndex(ix: Index, ps: seq<Page>): (r: Index)
    ensures r.schema == ix.schema
    ensures |r.docs| == |ix.docs| + |ps|
    ensures r.docs[..|ix.docs|] == ix.docs
    ensures forall i :: 0 <= i < |ps| ==> r.docs[|ix.docs| + i] == DocOf(ps[i])
  {
    Index(ix.schema, ix.docs + DocsOf(ps))
  }

  /** Building onto an index that already holds a page's document leaves
      two documents with that identity: `build_index` is not an upsert. */
  lemma RebuildDuplicates(ix: Index, ps: seq<Page>, p: Page)
    requires DocOf(p) in ix.docs && p in ps
    ensures |WithId(BuildIndex(ix, ps).docs, p.id)| >= 2
  {
    var r := BuildIndex(ix, ps);
    assert r.docs == ix.docs + DocsOf(ps);
    WithIdAppend(ix.docs, DocsOf(ps), p.id);
    WithIdMembers(ix.docs, p.id);
    WithIdMembers(DocsOf(ps), p.id);
    var k :| 0 <= k < |ps| && ps[k] == p;
    assert DocsOf(ps)[k] == DocOf(p);
    assert DocOf(p) in WithId(ix.docs, p.id);
    assert DocOf(p) in WithId(DocsOf(ps), p.id);
  }

  /** `delete_page`: a term-delete on `id`. It removes every document with
      that identity when `id` is indexed, and matches nothing otherwise. */
  function DeletePage(ix: Index, id: string): (r: Index)
    ensures r.schema == ix.schema
    ensures ix.schema.idIndexed ==>
      (WithId(r.docs, id) == [] && Outside(r.docs, {id}) == Outside(ix.docs, {id}))
    ensures ix.schema.idIndexed ==>
      forall d :: d in r.docs <==> d in ix.docs && d.id != Some(id)
    ensures !ix.schema.idIndexed ==> r == ix
  {
    if ix.schema.idIndexed then
      var kept := Outside(ix.docs, {id});
      WithIdOutside(ix.docs, {id}, id);
      OutsideOutside(ix.docs, {id}, {id});
      assert {id} + {id} == {id};
      OutsideMembers(ix.docs, {id});
      Index(ix.schema, kept)
    else ix
  }

  /** Deleting twice is deleting once. */
  lemma DeleteIdempotent(ix: Index, id: string)
    ensures DeletePage(DeletePage(ix, id), id) == DeletePage(ix, id)
  {
    if ix.schema.idIndexed {
      OutsideOutside(ix.docs, {id}, {id});
      assert {id} + {id} == {id};
    }
  }

  /** `update_page`: a term-delete on the page's id followed by adding its
      document, in one commit. */
  function UpdatePage(ix: Index, p: Page): (r: Index)
    ensures r.schema == ix.schema
    ensures ix.schema.idIndexed ==> WithId(r.docs, p.id) == [DocOf(p)]
    ensures ix.schema.idIndexed ==> Outside(r.docs, {p.id}) == Outside(ix.docs, {p.id})
    ensures !ix.schema.idIndexed ==> WithId(r.docs, p.id) == WithId(ix.docs, p.id) + [DocOf(p)]
    ensures forall id :: id != p.id ==> WithId(r.docs, id) == WithId(ix.docs, id)
  {
    var kept := DeletePage(ix, p.id);
    var r := Index(ix.schema, kept.docs + [DocOf(p)]);
    WithIdAppend(kept.docs, [DocOf(p)], p.id);
    OutsideAppend(kept.docs, [DocOf(p)], {p.id});
    assert Outside([DocOf(p)], {p.id}) == [];
    forall id | id != p.id ensures WithId(r.docs, id) == WithId(ix.docs, id) {
      WithIdAppend(kept.docs, [DocOf(p)], id);
      if ix.schema.idIndexed {
        WithIdOutside(ix.docs, {p.id}, id);
      }
    }
    r
  }

  /** In the stored-only schema every update adds a document and none is
      removed, so updating a page twice leaves two more copies of it. */
  lemma MirrorUpdateAccumulates(ix: Index, p: Page)
    requires ix.schema == MirrorSchema
    ensures |WithId(UpdatePage(UpdatePage(ix, p), p).docs, p.id)| == |WithId(ix.docs, p.id)| + 2
    ensures |UpdatePage(ix, p).docs| == |ix.docs| + 1
  {
    var once := UpdatePage(ix, p);
    assert once.docs == ix.docs + [DocOf(p)];
  }

  /** `update_pages_batch`: delete-then-add for each page, in order, under
      one writer. Operation stamps order the deletes after the adds that
      precede them, so the batch is the sequential fold of `UpdatePage`. */
  function UpdatePagesBatch(ix: Index, ps: seq<Page>): (r: Index)
    ensures r.schema == ix.schema
    ensures ix.schema.idIndexed ==>
      forall id :: id in Ids(ps) ==> WithId(r.docs, id) == [DocOf(LatestVersion(ps, id).value)]
    ensures ix.schema.idIndexed ==> Outside(r.docs, Ids(ps)) == Outside(ix.docs, Ids(ps))
    ensures forall id :: id !in Ids(ps) ==> WithId(r.docs, id) == WithId(ix.docs, id)
  {
    if |ps| == 0 then
      assert Ids(ps) == {};
      OutsideOutside(ix.docs, {}, {});
      ix
    else
      var n := |ps| - 1;
      var last := ps[n];
      var mid := UpdatePagesBatch(ix, ps[..n]);
      var r := UpdatePage(mid, last);
      assert ps == ps[..n] + [last];
      assert Ids(ps) == Ids(ps[..n]) + {last.id};
      if ix.schema.idIndexed then
        BatchStepIds(ps[..n], last, mid);
        BatchStepOutside(ix, ps, mid, r);
        r
      else r
  }

  /** The batch's own ids after one more step. */
  lemma BatchStepIds(q: seq<Page>, last: Page, mid: Index)
    requires mid.schema.idIndexed
    requires forall id :: id in Ids(q) ==> WithId(mid.docs, id) == [DocOf(LatestVersion(q, id).value)]
    ensures forall id :: id in Ids(q + [last]) ==>
      WithId(UpdatePage(mid, last).docs, id) == [DocOf(LatestVersion(q + [last], id).value)]
  {
    var ps := q + [last];
    assert ps[..|ps| - 1] == q;
    assert Ids(ps) == Ids(q) + {last.id};
  }

  /** The documents outside the batch's ids after one more step. */
  lemma BatchStepOutside(ix: Index, ps: seq<Page>, mid: Index, r: Index)
    requires |ps| > 0 && mid.schema.idIndexed
    requires Outside(mid.docs, Ids(ps[..|ps| - 1])) == Outside(ix.docs, Ids(ps[..|ps| - 1]))
    requires r == UpdatePage(mid, ps[|ps| - 1])
    ensures Outside(r.docs, Ids(ps)) == Outside(ix.docs, Ids(ps))
  {
    var n := |ps| - 1;
    var q := ps[..n];
    var k := ps[n].id;
    assert ps == q + [ps[n]];
    assert Ids(ps) == Ids(q) + {k};
    assert {k} + Ids(q) == Ids(ps);
    calc {
      Outside(r.docs, Ids(ps));
      { OutsideOutside(r.docs, {k}, Ids(q)); }
      Outside(Outside(r.docs, {k}), Ids(q));
      Outside(Outside(mid.docs, {k}), Ids(q));
      { OutsideOutside(mid.docs, {k}, Ids(q)); OutsideOutside(mid.docs, Ids(q), {k}); }
      Outside(Outside(mid.docs, Ids(q)), {k});
      Outside(Outside(ix.docs, Ids(q)), {k});
      { OutsideOutside(ix.docs, Ids(q), {k}); }
      Outside(ix.docs, Ids(ps));
    }
  }

  /** An empty batch succeeds and changes nothing. */
  lemma EmptyBatchUnchanged(ix: Index)
    ensures UpdatePagesBatch(ix, []) == ix
  {
  }

  // ---------------------------------------------------------------------
  // Queries

  datatype SearchFilters = SearchFilters(titleOnly: bool, minScore: real)

  /** `SearchFilters::default`. */
  const DefaultFilters: SearchFilters := SearchFilters(false, 0.0)

  datatype SearchResult = SearchResult(id: string, score: real, title: string, content: string)

  datatype SearchError = IoError | TantivyError | QueryParseError

  /** The fields of a document the query parser can search. */
  datatype Field = IdField | TitleField | ContentField

  /** The query parser and the scorer. `score(q, fields, d)` is the
      relevance of document `d` for query `q` when the parser's default
      fields are `fields`, or `None` when `d` does not match. A query may
      name a field itself (`content:functor`), so the score may read any
      field of `d`. */
  datatype QueryEngine = QueryEngine(
    parses: string -> bool,
    score: (string, set<Field>, Doc) -> Option<real>)

  /** The default fields `search_with_filters` hands the parser: the title,
      and the content unless `titleOnly`. */
  function DefaultFields(titleOnly: bool): (fs: set<Field>)
    ensures TitleField in fs && IdField !in fs
    ensures ContentField in fs <==> !titleOnly
  {
    if titleOnly then {TitleField} else {TitleField, ContentField}
  }

  /** `a` and `b` hold the same value in every field of `fs`. */
  predicate AgreeOn(a: Doc, b: Doc, fs: set<Field>) {
    && (IdField in fs ==> a.id == b.id)
    && (TitleField in fs ==> a.title == b.title)
    && (ContentField in fs ==> a.content == b.content)
  }

  /** Query `q` names no field: its score reads only the default fields. */
  ghost predicate FieldFree(e: QueryEngine, q: string) {
    forall fs: set<Field>, a: Doc, b: Doc {:trigger e.score(q, fs, a), e.score(q, fs, b)} ::
      AgreeOn(a, b, fs) ==> e.score(q, fs, a) == e.score(q, fs, b)
  }

  /** The score of `d` under the default fields `titleOnly` selects. */
  function ScoreOf(e: QueryEngine, q: string, d: Doc, titleOnly: bool): Option<real> {
    e.score(q, DefaultFields(titleOnly), d)
  }

  /** Every matching document, as a hit at its position. */
  function Hits(e: QueryEngine, q: string, docs: seq<Doc>, titleOnly: bool): (hs: seq<Hit>)
    ensures forall h :: h in hs ==> h.pos < |docs| && ScoreOf(e, q, docs[h.pos], titleOnly) == Some(h.score)
    ensures forall i :: 0 <= i < |docs| && ScoreOf(e, q, docs[i], titleOnly).Some? ==>
      Hit(ScoreOf(e, q, docs[i], titleOnly).value, i) in hs
    ensures forall i, j :: 0 <= i < j < |hs| ==> hs[i].pos < hs[j].pos
  {
    if |docs| == 0 then []
    else
      var n := |docs| - 1;
      var before := Hits(e, q, docs[..n], titleOnly);
      match ScoreOf(e, q, docs[n], titleOnly)
      case None => before
      case Some(s) => before + [Hit(s, n)]
  }

  /** The hits with score at least `min`, in the same order. */
  function AtLeast(hs: seq<Hit>, min: real): (r: seq<Hit>)
    ensures |r| <= |hs|
    ensures forall h :: h in r <==> h in hs && h.score >= min
    ensures (forall h :: h in hs ==> h.score >= min) ==> r == hs
    ensures multiset(r) <= multiset(hs)
  {
    if |hs| == 0 then []
    else
      assert hs == [hs[0]] + hs[1..];
      (if hs[0].score >= min then [hs[0]] else []) + AtLeast(hs[1..], min)
  }

  /** Filtering a concatenation filters each part, and one hit is kept
      alone exactly when it reaches `min`: the kept hits stay in order. */
  lemma {:induction false} AtLeastAppend(a: seq<Hit>, b: seq<Hit>, min: real)
    ensures AtLeast(a + b, min) == AtLeast(a, min) + AtLeast(b, min)
    ensures |a| == 1 ==> AtLeast(a, min) == (if a[0].score >= min then [a[0]] else [])
  {
    if |a| > 0 {
      assert (a + b)[0] == a[0];
      assert (a + b)[1..] == a[1..] + b;
      var head := if a[0].score >= min then [a[0]] else [];
      assert AtLeast(a + b, min) == head + AtLeast(a[1..] + b, min);
      assert AtLeast(a, min) == head + AtLeast(a[1..], min);
      AtLeastAppend(a[1..], b, min);
      if |a| == 1 {
        AtLeastOne(a, min);
      }
    } else {
      assert a + b == b;
    }
  }

  lemma AtLeastOne(a: seq<Hit>, min: real)
    requires |a| == 1
    ensures AtLeast(a, min) == (if a[0].score >= min then [a[0]] else [])
  {
    assert a[1..] == [];
  }

  /** Dropping hits keeps the rest in ranking order. */
  lemma {:induction false} AtLeastRanked(hs: seq<Hit>, min: real)
    requires Ranked(hs)
    ensures Ranked(AtLeast(hs, min))
  {
    if |hs| > 0 {
      var rest := AtLeast(hs[1..], min);
      AtLeastRanked(hs[1..], min);
      if hs[0].score >= min {
        forall k | 0 <= k < |rest| ensures RankedAbove(hs[0], rest[k]) {
          assert rest[k] in hs[1..];
          var j :| 0 <= j < |hs[1..]| && hs[1..][j] == rest[k];
          assert hs[j + 1] == rest[k];
        }
        ConsRanked(hs[0], rest);
      }
    }
  }

  /** Taking the best `limit` and then dropping those below `min` loses
      no qualifying hit unless `limit` qualifying hits rank above it. */
  lemma TopKThenThreshold(hs: seq<Hit>, limit: nat, min: real, h: Hit)
    requires h in hs && h.score >= min && h !in AtLeast(TopK(hs, limit), min)
    ensures |AtLeast(TopK(hs, limit), min)| == limit
    ensures forall y :: y in AtLeast(TopK(hs, limit), min) ==> RankedAbove(y, h)
  {
    var top := TopK(hs, limit);
    assert h !in top;
    assert h in multiset(hs) - multiset(top);
    assert forall y :: y in top ==> RankedAbove(y, h) by {
      forall y | y in top ensures RankedAbove(y, h) {
        assert y in multiset(top);
      }
    }
    assert AtLeast(top, min) == top;
    if |top| != limit {
      assert false;
    }
  }

  /** What the best `limit` hits above a threshold are, for any hit list. */
  lemma TopKAtLeast(hs: seq<Hit>, limit: nat, min: real)
    ensures var r := AtLeast(TopK(hs, limit), min);
      && |r| <= limit
      && Ranked(r)
      && (forall h :: h in r ==> h in hs && h.score >= min)
      && (forall h :: h in hs && h.score >= min && h !in r ==>
           |r| == limit && forall y :: y in r ==> RankedAbove(y, h))
  {
    var top := TopK(hs, limit);
    AtLeastRanked(top, min);
    forall h | h in hs && h.score >= min && h !in AtLeast(top, min)
      ensures |AtLeast(top, min)| == limit
      ensures forall y :: y in AtLeast(top, min) ==> RankedAbove(y, h)
    {
      TopKThenThreshold(hs, limit, min, h);
    }
  }

  /** The hits `search_with_filters` reports: the best `limit` by score,
      then those below `min_score` dropped. */
  function Selected(e: QueryEngine, ix: Index, q: string, limit: nat, f: SearchFilters): (r: seq<Hit>)
    ensures |r| <= limit
    ensures Ranked(r)
    ensures multiset(r) <= multiset(Hits(e, q, ix.docs, f.titleOnly))
    ensures forall h :: h in r ==> h in Hits(e, q, ix.docs, f.titleOnly) && h.score >= f.minScore
    ensures forall h :: h in Hits(e, q, ix.docs, f.titleOnly) && h.score >= f.minScore && h !in r ==>
      |r| == limit && forall y :: y in r ==> RankedAbove(y, h)
  {
    var hs := Hits(e, q, ix.docs, f.titleOnly);
    TopKAtLeast(hs, limit, f.minScore);
    AtLeast(TopK(hs, limit), f.minScore)
  }

  /** A hit list ordered by position holds each hit at most once. */
  lemma {:induction false} PositionsOnce(hs: seq<Hit>, h: Hit)
    requires forall i, j :: 0 <= i < j < |hs| ==> hs[i].pos < hs[j].pos
    ensures multiset(hs)[h] <= 1
  {
    if |hs| > 0 {
      var n := |hs| - 1;
      assert hs == hs[..n] + [hs[n]];
      PositionsOnce(hs[..n], h);
      if hs[n] == h {
        forall i | 0 <= i < n ensures hs[..n][i] != h {
          assert hs[i].pos < hs[n].pos;
        }
      }
    }
  }

  /** A hit at two places of a list is counted twice. */
  lemma CountedTwice(r: seq<Hit>, i: int, j: int)
    requires 0 <= i < j < |r| && r[i] == r[j]
    ensures multiset(r)[r[i]] >= 2
  {
    assert r == r[..i] + [r[i]] + r[i + 1..j] + [r[j]] + r[j + 1..];
  }

  /** Hits drawn from a list ordered by position have pairwise different
      positions. */
  lemma DrawnOnce(r: seq<Hit>, hs: seq<Hit>)
    requires forall i, j :: 0 <= i < j < |hs| ==> hs[i].pos < hs[j].pos
    requires multiset(r) <= multiset(hs)
    ensures forall i, j :: 0 <= i < j < |r| ==> r[i].pos != r[j].pos
  {
    forall i, j | 0 <= i < j < |r| ensures r[i].pos != r[j].pos {
      assert r[i] in multiset(hs) && r[j] in multiset(hs);
      var a :| 0 <= a < |hs| && hs[a] == r[i];
      var b :| 0 <= b < |hs| && hs[b] == r[j];
      if a != b {
        assert hs[a].pos != hs[b].pos;
      } else {
        PositionsOnce(hs, r[i]);
        if r[i] == r[j] {
          CountedTwice(r, i, j);
        }
      }
    }
  }

  /** No document is reported twice: the selected hits have pairwise
      different positions. */
  lemma SelectedOnce(e: QueryEngine, ix: Index, q: string, limit: nat, f: SearchFilters)
    ensures var r := Selected(e, ix, q, limit, f);
      forall i, j :: 0 <= i < j < |r| ==> r[i].pos != r[j].pos
  {
    DrawnOnce(Selected(e, ix, q, limit, f), Hits(e, q, ix.docs, f.titleOnly));
  }

  /** The result reported for a hit on `d`; a missing stored field reads as "". */
  function ResultOf(d: Doc, score: real): (r: SearchResult)
    ensures r.id == d.id.GetOr("") && r.title == d.title.GetOr("") && r.content == d.content.GetOr("")
    ensures r.score == score
  {
    SearchResult(d.id.GetOr(""), score, d.title.GetOr(""), d.content.GetOr(""))
  }

  /** One reported result per selected hit, in the same order. */
  function Report(docs: seq<Doc>, sel: seq<Hit>): (rs: seq<SearchResult>)
    requires forall h :: h in sel ==> h.pos < |docs|
    ensures |rs| == |sel|
    ensures forall k :: 0 <= k < |sel| ==> rs[k] == ResultOf(docs[sel[k].pos], sel[k].score)
  {
    if |sel| == 0 then [] else [ResultOf(docs[sel[0].pos], sel[0].score)] + Report(docs, sel[1..])
  }

  /** A report of ranked hits is in descending score order. */
  lemma ReportOrdered(docs: seq<Doc>, sel: seq<Hit>, min: real)
    requires forall h :: h in sel ==> h.pos < |docs| && h.score >= min
    requires Ranked(sel)
    ensures forall k :: 0 <= k < |sel| ==> Report(docs, sel)[k].score >= min
    ensures forall i, j :: 0 <= i < j < |sel| ==> Report(docs, sel)[i].score >= Report(docs, sel)[j].score
  {
    assert forall k :: 0 <= k < |sel| ==> sel[k] in sel;
  }

  /** `search_with_filters`. `TopDocs::with_limit` rejects a zero limit,
      hence the precondition. */
  function SearchWithFilters(e: QueryEngine, ix: Index, q: string, limit: nat, f: SearchFilters)
    : (r: Result<seq<SearchResult>, SearchError>)
    requires limit >= 1
    ensures r.Err? <==> !e.parses(q)
    ensures r.Err? ==> r.error == QueryParseError
    ensures r.Ok? ==> |r.value| <= limit
    ensures r.Ok? ==> forall k :: 0 <= k < |r.value| ==> r.value[k].score >= f.minScore
    ensures r.Ok? ==> forall i, j :: 0 <= i < j < |r.value| ==> r.value[i].score >= r.value[j].score
    ensures r.Ok? ==> r.value == Report(ix.docs, Selected(e, ix, q, limit, f))
  {
    if !e.parses(q) then Err(QueryParseError)
    else
      var sel := Selected(e, ix, q, limit, f);
      ReportOrdered(ix.docs, sel, f.minScore);
      Ok(Report(ix.docs, sel))
  }

  /** `search`: the default filters, so both fields are searched and every
      non-negative score is kept. */
  function SearchDefault(e: QueryEngine, ix: Index, q: string, limit: nat)
    : (r: Result<seq<SearchResult>, SearchError>)
    requires limit >= 1
    ensures r == SearchWithFilters(e, ix, q, limit, SearchFilters(false, 0.0))
    ensures r.Ok? ==> forall k :: 0 <= k < |r.value| ==> r.value[k].score >= 0.0
  {
    SearchWithFilters(e, ix, q, limit, DefaultFilters)
  }

  /** When no hit falls below the threshold, the result has exactly
      min(limit, matches) entries. */
  lemma NoThresholdKeepsTopK(e: QueryEngine, ix: Index, q: string, limit: nat, f: SearchFilters)
    requires limit >= 1 && e.parses(q)
    requires forall h :: h in Hits(e, q, ix.docs, f.titleOnly) ==> h.score >= f.minScore
    ensures |SearchWithFilters(e, ix, q, limit, f).value| == Min(limit, |Hits(e, q, ix.docs, f.titleOnly)|)
  {
    var hs := Hits(e, q, ix.docs, f.titleOnly);
    var top := TopK(hs, limit);
    forall h | h in top ensures h.score >= f.minScore {
      assert h in multiset(top);
    }
  }

  lemma {:induction false} HitsIgnoreContent(e: QueryEngine, q: string, a: seq<Doc>, b: seq<Doc>)
    requires FieldFree(e, q)
    requires |a| == |b|
    requires forall i :: 0 <= i < |a| ==> a[i].title == b[i].title
    ensures Hits(e, q, a, true) == Hits(e, q, b, true)
  {
    if |a| > 0 {
      var n := |a| - 1;
      HitsIgnoreContent(e, q, a[..n], b[..n]);
      assert AgreeOn(a[n], b[n], DefaultFields(true));
      assert ScoreOf(e, q, a[n], true) == ScoreOf(e, q, b[n], true);
    }
  }

  /** With `title_only` and a query that names no field, document content
      plays no part: two indexes that agree on every id and title give the
      same hits, in the same order, with the same ids, titles and scores. */
  lemma TitleOnlyIgnoresContent(e: QueryEngine, a: Index, b: Index, q: string, limit: nat, min: real)
    requires limit >= 1 && e.parses(q) && FieldFree(e, q)
    requires |a.docs| == |b.docs|
    requires forall i :: 0 <= i < |a.docs| ==> a.docs[i].title == b.docs[i].title && a.docs[i].id == b.docs[i].id
    ensures var ra := SearchWithFilters(e, a, q, limit, SearchFilters(true, min)).value;
            var rb := SearchWithFilters(e, b, q, limit, SearchFilters(true, min)).value;
            |ra| == |rb| && forall k :: 0 <= k < |ra| ==>
              ra[k].id == rb[k].id && ra[k].title == rb[k].title && ra[k].score == rb[k].score
  {
    HitsIgnoreContent(e, q, a.docs, b.docs);
    var f := SearchFilters(true, min);
    assert Selected(e, a, q, limit, f) == Selected(e, b, q, limit, f);
  }

  /** A query that names the content field (`content:functor`) still reads
      the content under `title_only`: two indexes that differ only in one
      document's content give different numbers of results. */
  lemma FieldQueryReadsContent()
    ensures var e := QueryEngine(q => true, (q, fs, d: Doc) => if d.content == Some("x") then Some(1.0) else None);
      var a := Index(AppSchema, [Doc(Some("p"), Some("t"), Some("x"))]);
      var b := Index(AppSchema, [Doc(Some("p"), Some("t"), Some("y"))]);
      && |SearchWithFilters(e, a, "content:x", 10, SearchFilters(true, 0.0)).value| == 1
      && |SearchWithFilters(e, b, "content:x", 10, SearchFilters(true, 0.0)).value| == 0
  {
    var e := QueryEngine(q => true, (q, fs, d: Doc) => if d.content == Some("x") then Some(1.0) else None);
    var a := Index(AppSchema, [Doc(Some("p"), Some("t"), Some("x"))]);
    var b := Index(AppSchema, [Doc(Some("p"), Some("t"), Some("y"))]);
    var f := SearchFilters(true, 0.0);
    assert a.docs[..0] == [] && b.docs[..0] == [];
    assert Hits(e, "content:x", a.docs, true) == [Hit(1.0, 0)];
    assert Hits(e, "content:x", b.docs, true) == [];
    NoThresholdKeepsTopK(e, a, "content:x", 10, f);
    NoThresholdKeepsTopK(e, b, "content:x", 10, f);
  }
}
