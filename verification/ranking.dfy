/** Selection of the best `limit` hits, as tantivy's `TopDocs::with_limit`
    collector does it: by descending score, ties broken by the position of
    the document in the index. Scores are abstract reals. */
module Ranking {

  /** A matching document: its score and its position in the index. */
  datatype Hit = Hit(score: real, pos: nat)

  /** `a` is ranked no lower than `b`. */
  predicate RankedAbove(a: Hit, b: Hit) {
    a.score > b.score || (a.score == b.score && a.pos <= b.pos)
  }

  /** Best first. */
  predicate Ranked(hs: seq<Hit>) {
    forall i, j :: 0 <= i < j < |hs| ==> RankedAbove(hs[i], hs[j])
  }

  /** A hit ranked above every element of a ranked list can go in front of it. */
  lemma ConsRanked(a: Hit, t: seq<Hit>)
    requires Ranked(t)
    requires forall k :: 0 <= k < |t| ==> RankedAbove(a, t[k])
    ensures Ranked([a] + t)
  {
    forall i, j | 0 <= i < j < |[a] + t| ensures RankedAbove(([a] + t)[i], ([a] + t)[j]) {
      if i > 0 {
        assert ([a] + t)[i] == t[i - 1] && ([a] + t)[j] == t[j - 1];
      } else {
        assert ([a] + t)[j] == t[j - 1];
      }
    }
  }

  /** The head of a ranked list goes in front of the tail with `h` inserted,
      when it ranks above `h`. */
  lemma HeadBeforeInsert(h: Hit, hs: seq<Hit>, tail: seq<Hit>)
    requires Ranked(hs) && |hs| > 0 && RankedAbove(hs[0], h)
    requires Ranked(tail) && forall x :: x in tail ==> x == h || x in hs[1..]
    requires multiset(tail) == multiset(hs[1..]) + multiset{h}
    ensures Ranked([hs[0]] + tail)
    ensures multiset([hs[0]] + tail) == multiset(hs) + multiset{h}
    ensures forall x :: x in [hs[0]] + tail ==> x == h || x in hs
  {
    assert hs == [hs[0]] + hs[1..];
    forall k | 0 <= k < |tail| ensures RankedAbove(hs[0], tail[k]) {
      assert tail[k] in tail;
      if tail[k] != h {
        var j :| 0 <= j < |hs[1..]| && hs[1..][j] == tail[k];
        assert hs[j + 1] == tail[k];
      }
    }
    ConsRanked(hs[0], tail);
  }

  /** A hit that the head of a ranked list does not rank above goes first. */
  lemma InsertAtFront(h: Hit, hs: seq<Hit>)
    requires Ranked(hs) && |hs| > 0 && !RankedAbove(hs[0], h)
    ensures Ranked([h] + hs)
  {
    forall k | 0 <= k < |hs| ensures RankedAbove(h, hs[k]) {
      if k > 0 {
        assert RankedAbove(hs[0], hs[k]);
      }
    }
    ConsRanked(h, hs);
  }

  /** Inserts `h` into a ranked list at its place. */
  function Insert(h: Hit, hs: seq<Hit>): (r: seq<Hit>)
    requires Ranked(hs)
    ensures Ranked(r)
    ensures multiset(r) == multiset(hs) + multiset{h}
    ensures |r| == |hs| + 1
    ensures forall x :: x in r ==> x == h || x in hs
  {
    if |hs| == 0 then [h]
    else if RankedAbove(hs[0], h) then
      var tail := Insert(h, hs[1..]);
      HeadBeforeInsert(h, hs, tail);
      [hs[0]] + tail
    else
      InsertAtFront(h, hs);
      [h] + hs
  }

  /** The hits in ranking order. */
  function Sort(hs: seq<Hit>): (r: seq<Hit>)
    ensures Ranked(r)
    ensures multiset(r) == multiset(hs)
    ensures |r| == |hs|
  {
    if |hs| == 0 then []
    else
      assert hs == [hs[0]] + hs[1..];
      Insert(hs[0], Sort(hs[1..]))
  }

  function Min(a: nat, b: nat): nat {
    if a <= b then a else b
  }

  /** In a ranked list, everything in a prefix ranks above everything after it. */
  lemma PrefixRanksAbove(s: seq<Hit>, n: nat)
    requires Ranked(s) && n <= |s|
    ensures forall x, y :: x in multiset(s[n..]) && y in s[..n] ==> RankedAbove(y, x)
  {
    forall x, y | x in multiset(s[n..]) && y in s[..n] ensures RankedAbove(y, x) {
      assert x in s[n..];
      var i :| 0 <= i < n && s[..n][i] == y;
      var j :| 0 <= j < |s| - n && s[n..][j] == x;
      assert s[i] == y && s[n + j] == x;
    }
  }

  /** A prefix of a ranking of `hs` is ranked, drawn from `hs`, and ranks
      above everything of `hs` it leaves out. */
  lemma PrefixOfRanking(hs: seq<Hit>, s: seq<Hit>, n: nat)
    requires Ranked(s) && multiset(s) == multiset(hs) && n <= |s|
    ensures Ranked(s[..n])
    ensures multiset(s[..n]) <= multiset(hs)
    ensures forall x, y :: x in multiset(hs) - multiset(s[..n]) && y in s[..n] ==> RankedAbove(y, x)
    ensures forall x :: x in s[..n] ==> x in hs
  {
    assert s == s[..n] + s[n..];
    assert multiset(s) == multiset(s[..n]) + multiset(s[n..]);
    assert multiset(hs) - multiset(s[..n]) == multiset(s[n..]);
    PrefixRanksAbove(s, n);
    forall x | x in s[..n] ensures x in hs {
      assert x in multiset(s[..n]);
      assert x in multiset(hs);
    }
    forall i, j | 0 <= i < j < n ensures RankedAbove(s[..n][i], s[..n][j]) {
      assert s[..n][i] == s[i] && s[..n][j] == s[j];
    }
  }

  /** The best `limit` hits, best first: nothing left out ranks above
      anything kept. */
  function TopK(hs: seq<Hit>, limit: nat): (r: seq<Hit>)
    ensures |r| == Min(limit, |hs|)
    ensures Ranked(r)
    ensures multiset(r) <= multiset(hs)
    ensures forall x, y :: x in multiset(hs) - multiset(r) && y in r ==> RankedAbove(y, x)
    ensures forall x :: x in r ==> x in hs
  {
    var s := Sort(hs);
    PrefixOfRanking(hs, s, Min(limit, |hs|));
    s[..Min(limit, |hs|)]
  }
}
