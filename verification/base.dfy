/** Shared vocabulary of the model: optional values, results, and the text
    operations of Rust's `str` that the extraction code relies on
    (`find`, `trim`, `replace`, `split_whitespace`, `join`). */
module Base {

  /** An optional value, as Rust's `Option`. */
  datatype Option<+T> = None | Some(value: T) {

    /** The value, or `default` when absent (Rust's `unwrap_or`). */
    function GetOr(default: T): T {
      match this
      case Some(v) => v
      case None => default
    }
  }

  /** A success value or an error value, as Rust's `Result`; usable with `:-`. */
  datatype Result<+T, +E> = Ok(value: T) | Err(error: E) {

    predicate IsFailure() {
      Err?
    }

    function PropagateFailure<U>(): Result<U, E>
      requires Err?
    {
      Err(error)
    }

    function Extract(): T
      requires Ok?
    {
      value
    }
  }

  // ---------------------------------------------------------------------------
  // Occurrences of a pattern

  /** `pat` occurs in `s` starting at position `i`. */
  predicate OccursAt(s: string, pat: string, i: nat) {
    i + |pat| <= |s| && s[i..i + |pat|] == pat
  }

  /** `pat` occurs somewhere in `s`. */
  ghost predicate Contains(s: string, pat: string) {
    exists i: nat :: OccursAt(s, pat, i)
  }

  /** `i` is the leftmost occurrence of `pat` in `s`. */
  ghost predicate FirstAt(s: string, pat: string, i: nat) {
    OccursAt(s, pat, i) && forall j: nat :: j < i ==> !OccursAt(s, pat, j)
  }

  lemma ShiftOccurs(s: string, pat: string, k: nat)
    requires |s| > 0
    ensures OccursAt(s[1..], pat, k) <==> OccursAt(s, pat, k + 1)
  {
    if k + |pat| <= |s[1..]| {
      assert s[1..][k..k + |pat|] == s[k + 1..k + 1 + |pat|];
    }
  }

  /** The position of the leftmost occurrence of `pat` in `s` (Rust's `str::find`). */
  function Find(s: string, pat: string): (r: Option<nat>)
    ensures r.Some? ==> FirstAt(s, pat, r.value)
    ensures r.None? ==> !Contains(s, pat)
    decreases |s|
  {
    if OccursAt(s, pat, 0) then Some(0)
    else if |s| == 0 then
      assert forall j: nat :: !OccursAt(s, pat, j) by {
        forall j: nat ensures !OccursAt(s, pat, j) {
          if j > 0 { assert j + |pat| > |s|; }
        }
      }
      None
    else
      var rest := Find(s[1..], pat);
      assert forall j: nat :: OccursAt(s[1..], pat, j) <==> OccursAt(s, pat, j + 1) by {
        forall j: nat ensures OccursAt(s[1..], pat, j) <==> OccursAt(s, pat, j + 1) {
          ShiftOccurs(s, pat, j);
        }
      }
      match rest
      case None =>
        assert forall j: nat :: !OccursAt(s, pat, j) by {
          forall j: nat ensures !OccursAt(s, pat, j) {
            if j > 0 { assert !OccursAt(s[1..], pat, j - 1); }
          }
        }
        None
      case Some(k) =>
        assert forall j: nat :: j < k + 1 ==> !OccursAt(s, pat, j) by {
          forall j: nat | j < k + 1 ensures !OccursAt(s, pat, j) {
            if j > 0 { assert !OccursAt(s[1..], pat, j - 1); }
          }
        }
        Some(k + 1)
  }

  // ---------------------------------------------------------------------------
  // Joining and removing

  /** The parts separated by `sep` (Rust's `[&str]::join`); `Join(parts, "")`
      is plain concatenation (`collect::<String>()`). */
  function Join(parts: seq<string>, sep: string): string {
    if |parts| == 0 then ""
    else if |parts| == 1 then parts[0]
    else parts[0] + sep + Join(parts[1..], sep)
  }

  /** `s` with every leftmost non-overlapping occurrence of `pat` deleted
      (Rust's `s.replace(pat, "")`). */
  function RemoveAll(s: string, pat: string): string
    requires |pat| > 0
    decreases |s|
  {
    if |s| == 0 then ""
    else if OccursAt(s, pat, 0) then RemoveAll(s[|pat|..], pat)
    else [s[0]] + RemoveAll(s[1..], pat)
  }

  /** Deleting `pat` from a string that does not contain it changes nothing,
      and deletion never lengthens a string. */
  lemma {:induction false} RemoveAllShape(s: string, pat: string)
    requires |pat| > 0
    ensures |RemoveAll(s, pat)| <= |s|
    ensures (forall i: nat :: !OccursAt(s, pat, i)) ==> RemoveAll(s, pat) == s
    decreases |s|
  {
    if |s| == 0 {
    } else if OccursAt(s, pat, 0) {
      RemoveAllShape(s[|pat|..], pat);
    } else {
      RemoveAllShape(s[1..], pat);
      if forall i: nat :: !OccursAt(s, pat, i) {
        forall i: nat ensures !OccursAt(s[1..], pat, i) {
          ShiftOccurs(s, pat, i);
        }
      }
    }
  }

  // ---------------------------------------------------------------------------
  // Whitespace

  /** Unicode `White_Space`, as Rust's `char::is_whitespace`. */
  predicate IsWhitespace(c: char) {
    var n := c as int;
    (0x09 <= n <= 0x0D) || n == 0x20 || n == 0x85 || n == 0xA0 || n == 0x1680
    || (0x2000 <= n <= 0x200A) || n == 0x2028 || n == 0x2029 || n == 0x202F
    || n == 0x205F || n == 0x3000
  }

  predicate AllWhitespace(s: string) {
    forall i :: 0 <= i < |s| ==> IsWhitespace(s[i])
  }

  /** `s` has no whitespace at either end. */
  predicate Trimmed(s: string) {
    |s| > 0 ==> !IsWhitespace(s[0]) && !IsWhitespace(s[|s| - 1])
  }

  /** `r` is the slice of `s` at `a` and everything of `s` around it is whitespace. */
  predicate SurroundedAt(s: string, r: string, a: nat) {
    a + |r| <= |s| && r == s[a..a + |r|]
    && AllWhitespace(s[..a]) && AllWhitespace(s[a + |r|..])
  }

  /** `r` is `s` with the whitespace at both ends removed. */
  ghost predicate IsTrimOf(r: string, s: string) {
    Trimmed(r) && exists a: nat :: SurroundedAt(s, r, a)
  }

  function TrimStart(s: string): (r: string)
    ensures |r| <= |s| && r == s[|s| - |r|..]
    ensures AllWhitespace(s[..|s| - |r|])
    ensures |r| > 0 ==> !IsWhitespace(r[0])
  {
    if |s| > 0 && IsWhitespace(s[0]) then TrimStart(s[1..]) else s
  }

  function TrimEnd(s: string): (r: string)
    ensures |r| <= |s| && r == s[..|r|]
    ensures AllWhitespace(s[|r|..])
    ensures |r| > 0 ==> !IsWhitespace(r[|r| - 1])
  {
    if |s| > 0 && IsWhitespace(s[|s| - 1]) then TrimEnd(s[..|s| - 1]) else s
  }

  /** A slice with whitespace cut off at the front and then at the back is
      surrounded by whitespace, and has none at either end. */
  lemma SliceSurrounded(s: string, t: string, r: string)
    requires |t| <= |s| && t == s[|s| - |t|..] && AllWhitespace(s[..|s| - |t|])
    requires |t| > 0 ==> !IsWhitespace(t[0])
    requires |r| <= |t| && r == t[..|r|] && AllWhitespace(t[|r|..])
    requires |r| > 0 ==> !IsWhitespace(r[|r| - 1])
    ensures SurroundedAt(s, r, |s| - |t|) && Trimmed(r)
  {
    var a := |s| - |t|;
    assert s[a + |r|..] == t[|r|..];
    assert s[a..a + |r|] == r;
    if |r| > 0 {
      assert r[0] == t[0];
    }
  }

  /** Nothing is left exactly when `s` is all whitespace. */
  lemma {:induction false} TrimsEmpty(s: string, t: string, r: string)
    requires t == TrimStart(s) && r == TrimEnd(t)
    ensures r == "" <==> AllWhitespace(s)
  {
    var a := |s| - |t|;
    if r == "" {
      assert AllWhitespace(t);
      assert s == s[..a] + t;
    } else {
      assert r[0] == t[0] == s[a];
    }
  }

  /** Rust's `str::trim`: the whitespace at both ends removed. */
  function Trim(s: string): (r: string)
    ensures IsTrimOf(r, s)
    ensures r == "" <==> AllWhitespace(s)
  {
    var t := TrimStart(s);
    var r := TrimEnd(t);
    SliceSurrounded(s, t, r);
    TrimsEmpty(s, t, r);
    r
  }

  // ---------------------------------------------------------------------------
  // Words and whitespace collapsing

  /** A non-empty run of non-whitespace characters. */
  predicate IsWord(w: string) {
    |w| > 0 && forall i :: 0 <= i < |w| ==> !IsWhitespace(w[i])
  }

  /** The number of characters before the first whitespace of `s`. */
  function WordLength(s: string): (n: nat)
    ensures n <= |s|
    ensures forall i :: 0 <= i < n ==> !IsWhitespace(s[i])
    ensures n < |s| ==> IsWhitespace(s[n])
  {
    if |s| == 0 || IsWhitespace(s[0]) then 0 else 1 + WordLength(s[1..])
  }

  /** The maximal runs of non-whitespace of `s`, in order (Rust's `split_whitespace`). */
  function Words(s: string): (ws: seq<string>)
    ensures forall k :: 0 <= k < |ws| ==> IsWord(ws[k])
    decreases |s|
  {
    if |s| == 0 then []
    else if IsWhitespace(s[0]) then Words(s[1..])
    else
      var n := WordLength(s);
      [s[..n]] + Words(s[n..])
  }

  /** Rust's `split_whitespace().collect::<Vec<_>>().join(" ")`. */
  function Collapse(s: string): string {
    Join(Words(s), " ")
  }

  /** Every whitespace character of `s` is a single space between two words. */
  predicate Collapsed(s: string) {
    && Trimmed(s)
    && forall i :: 0 <= i < |s| && IsWhitespace(s[i]) ==>
         s[i] == ' ' && i + 1 < |s| && !IsWhitespace(s[i + 1])
  }

  /** Splitting words joined by single spaces gives the words back. */
  lemma {:induction false} WordsOfJoin(ws: seq<string>)
    requires forall k :: 0 <= k < |ws| ==> IsWord(ws[k])
    ensures Words(Join(ws, " ")) == ws
  {
    if |ws| == 0 {
    } else if |ws| == 1 {
      var w := ws[0];
      assert WordLength(w) == |w|;
      assert w[..|w|] == w;
      assert Words(w) == [w] + Words(w[|w|..]);
    } else {
      var w := ws[0];
      var tail := Join(ws[1..], " ");
      var s := w + " " + tail;
      assert s == Join(ws, " ");
      assert s[|w|] == ' ';
      var n := WordLength(s);
      assert n == |w|;
      assert s[..n] == w;
      assert s[n..] == [' '] + tail;
      assert ([' '] + tail)[1..] == tail;
      WordsOfJoin(ws[1..]);
      assert ws == [w] + ws[1..];
    }
  }

  /** Words joined by single spaces are in collapsed form. */
  lemma {:induction false} JoinIsCollapsed(ws: seq<string>)
    requires forall k :: 0 <= k < |ws| ==> IsWord(ws[k])
    ensures Collapsed(Join(ws, " "))
  {
    if |ws| <= 1 {
    } else {
      var w := ws[0];
      var tail := Join(ws[1..], " ");
      JoinIsCollapsed(ws[1..]);
      var s := w + " " + tail;
      assert s == Join(ws, " ");
      assert |tail| > 0 by {
        if |ws[1..]| == 1 { } else { assert tail == ws[1] + " " + Join(ws[2..], " "); }
      }
      assert !IsWhitespace(tail[0]) && !IsWhitespace(tail[|tail| - 1]);
      forall i | 0 <= i < |s| && IsWhitespace(s[i])
        ensures s[i] == ' ' && i + 1 < |s| && !IsWhitespace(s[i + 1])
      {
        if i == |w| {
          assert s[i + 1] == tail[0];
        } else if i > |w| {
          assert s[i] == tail[i - |w| - 1];
          assert i + 1 < |s|;
          assert s[i + 1] == tail[i - |w|];
        }
      }
    }
  }

  /** What follows the first space of a collapsed string is collapsed. */
  lemma CollapsedTail(s: string, n: nat)
    requires Collapsed(s) && n < |s| && s[n] == ' '
    ensures Collapsed(s[n + 1..])
  {
    var rest := s[n + 1..];
    forall i | 0 <= i < |rest| && IsWhitespace(rest[i])
      ensures rest[i] == ' ' && i + 1 < |rest| && !IsWhitespace(rest[i + 1])
    {
      assert rest[i] == s[n + 1 + i];
    }
  }

  /** Joining a word with the join of a non-empty word list puts one space between them. */
  lemma JoinCons(w: string, ws: seq<string>)
    requires |ws| > 0
    ensures Join([w] + ws, " ") == w + " " + Join(ws, " ")
  {
    assert ([w] + ws)[1..] == ws;
  }

  /** The words of a string that is one word are that word. */
  lemma WordsOfWord(s: string)
    requires |s| > 0 && WordLength(s) == |s|
    ensures Words(s) == [s]
  {
    assert s[..|s|] == s;
    assert s[|s|..] == "";
  }

  /** A word followed by one space: the first word, then the words of the rest. */
  lemma WordsAfterWord(s: string, n: nat)
    requires 0 < n == WordLength(s) && n < |s| && IsWhitespace(s[n])
    ensures Words(s) == [s[..n]] + Words(s[n + 1..])
  {
    assert Words(s) == [s[..n]] + Words(s[n..]);
    assert s[n..][1..] == s[n + 1..];
  }

  /** A collapsed string that is not one word: a word, a space, and a collapsed rest. */
  lemma CollapsedSplit(s: string) returns (n: nat)
    requires Collapsed(s) && |s| > 0 && WordLength(s) < |s|
    ensures n == WordLength(s) > 0 && s[n] == ' '
    ensures s == s[..n] + " " + s[n + 1..]
    ensures Collapsed(s[n + 1..]) && |s[n + 1..]| > 0
    ensures Words(s) == [s[..n]] + Words(s[n + 1..])
  {
    n := WordLength(s);
    assert !IsWhitespace(s[0]);
    assert s[n] == ' ' && n + 1 < |s|;
    CollapsedTail(s, n);
    WordsAfterWord(s, n);
  }

  /** A collapsed string is its own collapse. */
  lemma {:induction false} CollapsedIsFixed(s: string)
    requires Collapsed(s)
    ensures Join(Words(s), " ") == s
    decreases |s|
  {
    if |s| > 0 {
      if WordLength(s) == |s| {
        WordsOfWord(s);
      } else {
        var n := CollapsedSplit(s);
        var rest := s[n + 1..];
        CollapsedIsFixed(rest);
        assert WordLength(rest) > 0;
        JoinCons(s[..n], Words(rest));
      }
    }
  }

  /** Collapsing normalises: the result has single spaces between the same
      words in the same order, and collapsing again changes nothing. */
  lemma CollapseNormalises(s: string)
    ensures Collapsed(Collapse(s))
    ensures Words(Collapse(s)) == Words(s)
    ensures Collapse(Collapse(s)) == Collapse(s)
  {
    WordsOfJoin(Words(s));
    JoinIsCollapsed(Words(s));
  }

  /** A string is left unchanged by collapsing exactly when it is already collapsed. */
  lemma CollapseFixedPoints(s: string)
    ensures Collapse(s) == s <==> Collapsed(s)
  {
    if Collapsed(s) {
      CollapsedIsFixed(s);
    }
    JoinIsCollapsed(Words(s));
  }
}
