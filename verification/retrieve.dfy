/** `rank_chunks_by_keywords`: scores each chunk by how often the query's
    words occur in it and returns the indices of the best chunks. */
module Retrieve {
  import opened Text

  /** ASCII `\w`: letters, digits and the underscore. */
  predicate IsWordChar(c: char) {
    ('a' <= c <= 'z') || ('A' <= c <= 'Z') || ('0' <= c <= '9') || c == '_'
  }

  /** `_tokens`: the maximal runs of word characters of the lower-cased
      text. */
  function Tokens(s: string): (r: seq<string>)
    ensures forall i :: 0 <= i < |r| ==> |r[i]| > 0 && AllIn(r[i], IsWordChar)
  {
    Runs(Lower(s), IsWordChar)
  }

  predicate IsLowerWord(w: string) {
    |w| > 0 && forall k :: 0 <= k < |w| ==> IsWordChar(w[k]) && !('A' <= w[k] <= 'Z')
  }

  lemma LowerFixed(s: string)
    requires forall k :: 0 <= k < |s| ==> !('A' <= s[k] <= 'Z')
    ensures Lower(s) == s
  {
  }

  lemma {:induction false} JoinLacksUpper(ws: seq<string>)
    requires forall i :: 0 <= i < |ws| ==> IsLowerWord(ws[i])
    ensures forall k :: 0 <= k < |Join(ws, " ")| ==> !('A' <= Join(ws, " ")[k] <= 'Z')
    decreases |ws|
  {
    if |ws| > 1 {
      JoinLacksUpper(ws[1..]);
      var j := Join(ws, " ");
      var t := Join(ws[1..], " ");
      assert j == ws[0] + " " + t;
      forall k | 0 <= k < |j| ensures !('A' <= j[k] <= 'Z') {
        if k < |ws[0]| {
          assert j[k] == ws[0][k];
        } else if k > |ws[0]| {
          assert j[k] == t[k - |ws[0]| - 1];
        }
      }
    }
  }

  /** Tokenising lower-case words separated by single spaces gives back the
      words. */
  lemma TokensOfWords(ws: seq<string>)
    requires forall i :: 0 <= i < |ws| ==> IsLowerWord(ws[i])
    ensures Tokens(Join(ws, " ")) == ws
  {
    JoinLacksUpper(ws);
    LowerFixed(Join(ws, " "));
    RunsJoin(ws, " ", IsWordChar);
  }

  /** `tokens.count(w)`. */
  function Count(ts: seq<string>, w: string): nat
    decreases |ts|
  {
    if |ts| == 0 then 0 else (if ts[0] == w then 1 else 0) + Count(ts[1..], w)
  }

  lemma {:induction false} CountPositive(ts: seq<string>, w: string)
    ensures Count(ts, w) > 0 <==> w in ts
    decreases |ts|
  {
    if |ts| > 0 {
      CountPositive(ts[1..], w);
      assert ts == [ts[0]] + ts[1..];
    }
  }

  /** The score of a chunk: for every query token, repetitions included, the
      number of its occurrences among the chunk's tokens. */
  function Score(q: seq<string>, ts: seq<string>): nat
    decreases |q|
  {
    if |q| == 0 then 0 else Count(ts, q[0]) + Score(q[1..], ts)
  }

  /** A chunk scores above zero exactly when it shares a token with the
      query. */
  lemma {:induction false} ScorePositive(q: seq<string>, ts: seq<string>)
    ensures Score(q, ts) > 0 <==> exists i :: 0 <= i < |q| && q[i] in ts
    decreases |q|
  {
    if |q| > 0 {
      ScorePositive(q[1..], ts);
      CountPositive(ts, q[0]);
      if Count(ts, q[0]) == 0 && Score(q[1..], ts) == 0 {
        forall i | 0 <= i < |q| ensures q[i] !in ts {
          if i > 0 {
            assert q[i] == q[1..][i - 1];
          }
        }
      } else if Count(ts, q[0]) == 0 {
        var i :| 0 <= i < |q[1..]| && q[1..][i] in ts;
        assert q[i + 1] in ts;
      }
    }
  }

  function Scores(q: seq<string>, chunks: seq<string>): (r: seq<nat>)
    ensures |r| == |chunks| && forall i :: 0 <= i < |chunks| ==> r[i] == Score(q, Tokens(chunks[i]))
  {
    seq(|chunks|, i requires 0 <= i < |chunks| => Score(q, Tokens(chunks[i])))
  }

  /** The sort key `(-score, index)`: a higher score first, ties by the lower
      index. A strict total order on distinct indices. */
  predicate Before(sc: seq<nat>, a: nat, b: nat)
    requires a < |sc| && b < |sc|
  {
    sc[a] > sc[b] || (sc[a] == sc[b] && a < b)
  }

  predicate InRange(sc: seq<nat>, s: seq<nat>) {
    forall i :: 0 <= i < |s| ==> s[i] < |sc|
  }

  /** Strictly increasing in the sort key, hence free of duplicates. */
  predicate Ordered(sc: seq<nat>, s: seq<nat>)
    requires InRange(sc, s)
  {
    forall i, j :: 0 <= i < j < |s| ==> Before(sc, s[i], s[j])
  }

  predicate Distinct(s: seq<nat>) {
    forall i, j :: 0 <= i < j < |s| ==> s[i] != s[j]
  }

  lemma OrderedDistinct(sc: seq<nat>, s: seq<nat>)
    requires InRange(sc, s) && Ordered(sc, s)
    ensures Distinct(s)
  {
  }

  /** Places `x` among the ordered indices `s`. */
  function Insert(sc: seq<nat>, x: nat, s: seq<nat>): (r: seq<nat>)
    requires x < |sc| && InRange(sc, s) && Ordered(sc, s) && x !in s
    ensures |r| == |s| + 1 && InRange(sc, r) && Ordered(sc, r)
    ensures forall y :: y in r <==> y == x || y in s
    decreases |s|
  {
    if |s| == 0 || Before(sc, x, s[0]) then [x] + s
    else
      var rest := Insert(sc, x, s[1..]);
      assert forall y :: y in rest ==> Before(sc, s[0], y) by {
        forall y | y in rest ensures Before(sc, s[0], y) {
          if y != x {
            var j :| 0 <= j < |s[1..]| && s[1..][j] == y;
            assert s[j + 1] == y;
          }
        }
      }
      [s[0]] + rest
  }

  /** `sort(key=lambda x: (-x[0], x[1]))` applied to distinct indices. */
  function Sort(sc: seq<nat>, s: seq<nat>): (r: seq<nat>)
    requires InRange(sc, s) && Distinct(s)
    ensures |r| == |s| && InRange(sc, r) && Ordered(sc, r)
    ensures forall y :: y in r <==> y in s
    decreases |s|
  {
    if |s| == 0 then []
    else
      assert forall j :: 0 <= j < |s[1..]| ==> s[1..][j] != s[0];
      Insert(sc, s[0], Sort(sc, s[1..]))
  }

  /** The indices with a positive score, in their given order
      (`[i for (s, i) in scores if s > 0]`). */
  function Positives(sc: seq<nat>, s: seq<nat>): (r: seq<nat>)
    requires InRange(sc, s) && Ordered(sc, s)
    ensures |r| <= |s| && InRange(sc, r) && Ordered(sc, r)
    ensures forall y :: y in r <==> y in s && sc[y] > 0
    decreases |s|
  {
    if |s| == 0 then []
    else
      var rest := Positives(sc, s[1..]);
      if sc[s[0]] > 0 then
        assert forall y :: y in rest ==> Before(sc, s[0], y) by {
          forall y | y in rest ensures Before(sc, s[0], y) {
            var j :| 0 <= j < |s[1..]| && s[1..][j] == y;
            assert s[j + 1] == y;
          }
        }
        [s[0]] + rest
      else rest
  }

  /** `range(n)`, empty for n <= 0. */
  function Range(n: int): (r: seq<nat>)
    ensures |r| == (if n > 0 then n else 0) && forall i :: 0 <= i < |r| ==> r[i] == i
  {
    seq(if n > 0 then n else 0, i requires 0 <= i => i)
  }

  function Min(a: int, b: int): int {
    if a <= b then a else b
  }

  /** The Python slice `s[:k]`: a negative `k` counts from the end. */
  function SliceTo(s: seq<nat>, k: int): (r: seq<nat>)
    ensures r <= s
    ensures k >= 0 ==> |r| == Min(k, |s|)
    ensures k < 0 ==> |r| == (if |s| + k > 0 then |s| + k else 0)
  {
    if k >= |s| then s
    else if k >= 0 then s[..k]
    else if |s| + k > 0 then s[..|s| + k]
    else []
  }

  /** The indices of the chunks with a positive score. */
  function Matching(sc: seq<nat>): set<nat> {
    set i: nat | i < |sc| && sc[i] > 0
  }

  function Members(s: seq<nat>): set<nat> {
    set x | x in s
  }

  /** A list without duplicates has as many members as elements. */
  lemma {:induction false} DistinctCard(s: seq<nat>)
    requires Distinct(s)
    ensures |Members(s)| == |s|
    decreases |s|
  {
    if |s| > 0 {
      var t := s[1..];
      assert Distinct(t) by {
        forall i, j | 0 <= i < j < |t| ensures t[i] != t[j] {
          assert t[i] == s[i + 1] && t[j] == s[j + 1];
        }
      }
      DistinctCard(t);
      var B := Members(t);
      assert s[0] !in B by {
        forall j | 0 <= j < |t| ensures t[j] != s[0] {
          assert t[j] == s[j + 1];
        }
      }
      assert Members(s) == B + {s[0]} by {
        assert s == [s[0]] + t;
      }
      assert |B + {s[0]}| == |B| + 1;
    }
  }

  /** Every positive-score index is listed once among the ranked
      candidates. */
  lemma PositivesCount(sc: seq<nat>)
    ensures |Positives(sc, Sort(sc, Range(|sc|)))| == |Matching(sc)|
  {
    var all := Range(|sc|);
    var pos := Positives(sc, Sort(sc, all));
    OrderedDistinct(sc, pos);
    DistinctCard(pos);
    assert Members(pos) == Matching(sc) by {
      forall y: nat ensures y in pos <==> y in Matching(sc) {
        if y < |sc| {
          assert all[y] == y;
        }
      }
    }
  }

  /** The number of ranked indices: the first `top_k` of the positive-score
      indices, with Python's reading of a negative `top_k`. */
  lemma RankedCount(sc: seq<nat>, topK: int)
    ensures |Ranked(sc, topK)| ==
      if topK >= 0 then Min(topK, |Matching(sc)|)
      else if |Matching(sc)| + topK > 0 then |Matching(sc)| + topK else 0
  {
    PositivesCount(sc);
  }

  /** The first indices, the answer when the query has no usable token or
      nothing matches. */
  function Leading(chunks: seq<string>, topK: int): seq<nat> {
    Range(Min(|chunks|, topK))
  }

  /** The ranked positive-score indices, before the fallback is applied. */
  function Ranked(sc: seq<nat>, topK: int): (r: seq<nat>)
    ensures InRange(sc, r) && Ordered(sc, r)
    ensures forall y :: y in r ==> sc[y] > 0
    ensures |r| > 0 ==> sc[r[0]] > 0
  {
    var all := Range(|sc|);
    var sorted := Sort(sc, all);
    SliceTo(Positives(sc, sorted), topK)
  }

  /** `rank_chunks_by_keywords(query, chunks, top_k)`. The size of the
      answer: with no query token or no matching chunk, min(len(chunks),
      top_k) (none for a negative `top_k`); otherwise the first `top_k` of
      the matching chunks, with the fallback only when that slice is
      empty. */
  function Rank(query: string, chunks: seq<string>, topK: int): (r: seq<nat>)
    ensures forall i :: 0 <= i < |r| ==> r[i] < |chunks|
    ensures Distinct(r)
    ensures topK >= 0 ==> |r| <= topK
    ensures var n := |Matching(Scores(Tokens(query), chunks))|;
      var lead := if Min(|chunks|, topK) > 0 then Min(|chunks|, topK) else 0;
      |r| == if |Tokens(query)| == 0 || n == 0 then lead
        else if topK >= 0 then Min(topK, n)
        else if n + topK > 0 then n + topK
        else 0
  {
    var q := Tokens(query);
    if |q| == 0 || |chunks| == 0 then
      assert |q| > 0 ==> Matching(Scores(q, chunks)) == {};
      Leading(chunks, topK)
    else
      var sc := Scores(q, chunks);
      var ranked := Ranked(sc, topK);
      RankedCount(sc, topK);
      if |ranked| > 0 then
        OrderedDistinct(sc, ranked);
        ranked
      else Leading(chunks, topK)
  }

  /** With no query token, or no chunk sharing a token with the query, the
      result is the first min(len(chunks), top_k) indices. */
  lemma RankFallback(query: string, chunks: seq<string>, topK: int)
    requires |Tokens(query)| == 0 || forall i :: 0 <= i < |chunks| ==> Score(Tokens(query), Tokens(chunks[i])) == 0
    ensures Rank(query, chunks, topK) == Leading(chunks, topK)
  {
    var q := Tokens(query);
    if |q| > 0 && |chunks| > 0 {
      var sc := Scores(q, chunks);
      assert forall i :: 0 <= i < |sc| ==> sc[i] == 0;
    }
  }

  /** In an ordered list, every element of a prefix comes before every
      element left out of it. */
  lemma PrefixComesFirst(sc: seq<nat>, pos: seq<nat>, ranked: seq<nat>, y: nat)
    requires InRange(sc, pos) && Ordered(sc, pos) && ranked <= pos
    requires y in pos && y !in ranked
    ensures forall i :: 0 <= i < |ranked| ==> Before(sc, ranked[i], y)
  {
    var j :| 0 <= j < |pos| && pos[j] == y;
    assert forall k :: 0 <= k < |ranked| ==> ranked[k] == pos[k];
  }

  /** On the scores alone: with a positive score present and a positive
      `top_k`, the ranked list is non-empty and no positive index left out
      of it outranks an index in it. */
  lemma RankedBest(sc: seq<nat>, topK: int, m: nat)
    requires topK > 0 && m < |sc| && sc[m] > 0
    ensures |Ranked(sc, topK)| > 0
    ensures forall y, i :: 0 <= y < |sc| && sc[y] > 0 && y !in Ranked(sc, topK) && 0 <= i < |Ranked(sc, topK)| ==>
      Before(sc, Ranked(sc, topK)[i], y)
  {
    var all := Range(|sc|);
    assert forall y :: 0 <= y < |sc| ==> y in all by {
      forall y | 0 <= y < |sc| ensures y in all {
        assert all[y] == y;
      }
    }
    var pos := Positives(sc, Sort(sc, all));
    var ranked := SliceTo(pos, topK);
    assert m in pos;
    assert ranked == Ranked(sc, topK);
    forall y | 0 <= y < |sc| && sc[y] > 0 && y !in ranked
      ensures forall i :: 0 <= i < |ranked| ==> Before(sc, ranked[i], y)
    {
      PrefixComesFirst(sc, pos, ranked, y);
    }
  }

  /** When some chunk matches and `top_k` is positive, the result lists only
      matching chunks, best score first and ties by index, and no omitted
      matching chunk outranks a returned one. */
  lemma RankMatches(query: string, chunks: seq<string>, topK: int, m: nat)
    requires |Tokens(query)| > 0 && topK > 0
    requires m < |chunks| && Score(Tokens(query), Tokens(chunks[m])) > 0
    ensures var sc := Scores(Tokens(query), chunks);
      var r := Rank(query, chunks, topK);
      && |r| > 0 && InRange(sc, r) && Ordered(sc, r)
      && |r| == Min(topK, |Matching(sc)|)
      && (forall i :: 0 <= i < |r| ==> sc[r[i]] > 0)
      && (forall y, i :: 0 <= y < |chunks| && sc[y] > 0 && y !in r && 0 <= i < |r| ==> Before(sc, r[i], y))
  {
    var sc := Scores(Tokens(query), chunks);
    RankedBest(sc, topK, m);
    RankedCount(sc, topK);
    assert Rank(query, chunks, topK) == Ranked(sc, topK);
  }
}
