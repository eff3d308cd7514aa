/** ASCII string helpers shared by the models: trimming, lower-casing,
    substring search, split/join and maximal character runs.

    JavaScript's `trim`/`\s` and Python's `strip`/`split()` also treat the
    Unicode spaces as whitespace; this model recognises the six ASCII
    whitespace characters only. Likewise `toLowerCase`/`lower` are modelled on
    ASCII letters. */
module Text {

  /** Space, tab, line feed, carriage return, vertical tab, form feed. */
  predicate IsSpace(c: char) {
    c == ' ' || c == '\t' || c == '\n' || c == '\r' || c == '\U{B}' || c == '\U{C}'
  }

  predicate AllSpace(s: string) {
    forall k :: 0 <= k < |s| ==> IsSpace(s[k])
  }

  /** Drops leading whitespace. */
  function TrimStart(s: string): (r: string)
    ensures |r| <= |s|
    ensures |r| > 0 ==> !IsSpace(r[0])
    decreases |s|
  {
    if |s| > 0 && IsSpace(s[0]) then TrimStart(s[1..]) else s
  }

  /** Drops trailing whitespace. */
  function TrimEnd(s: string): (r: string)
    ensures |r| <= |s|
    ensures |r| > 0 ==> !IsSpace(r[|r| - 1])
    decreases |s|
  {
    if |s| > 0 && IsSpace(s[|s| - 1]) then TrimEnd(s[..|s| - 1]) else s
  }

  /** A string is trimmed when it neither starts nor ends with whitespace. */
  predicate IsTrimmed(s: string) {
    |s| == 0 || (!IsSpace(s[0]) && !IsSpace(s[|s| - 1]))
  }

  /** `String.prototype.trim` / `str.strip()`. */
  function Trim(s: string): (r: string)
    ensures |r| <= |s|
    ensures IsTrimmed(r)
  {
    var t := TrimStart(s);
    TrimEndIsPrefix(t);
    TrimEnd(t)
  }

  /** `TrimStart` keeps a suffix. */
  lemma {:induction false} TrimStartIsSuffix(s: string)
    ensures TrimStart(s) == s[|s| - |TrimStart(s)|..]
    decreases |s|
  {
    if |s| > 0 && IsSpace(s[0]) {
      TrimStartIsSuffix(s[1..]);
    }
  }

  /** `TrimEnd` keeps a prefix. */
  lemma {:induction false} TrimEndIsPrefix(s: string)
    ensures TrimEnd(s) == s[..|TrimEnd(s)|]
    decreases |s|
  {
    if |s| > 0 && IsSpace(s[|s| - 1]) {
      TrimEndIsPrefix(s[..|s| - 1]);
    }
  }

  /** What `TrimStart` removes is whitespace. */
  lemma {:induction false} TrimStartRemovesSpace(s: string)
    ensures forall k :: 0 <= k < |s| - |TrimStart(s)| ==> IsSpace(s[k])
    decreases |s|
  {
    if |s| > 0 && IsSpace(s[0]) {
      TrimStartRemovesSpace(s[1..]);
      forall k | 1 <= k < |s| - |TrimStart(s)| ensures IsSpace(s[k]) {
        assert s[k] == s[1..][k - 1];
      }
    }
  }

  /** What `TrimEnd` removes is whitespace. */
  lemma {:induction false} TrimEndRemovesSpace(s: string)
    ensures forall k :: |TrimEnd(s)| <= k < |s| ==> IsSpace(s[k])
    decreases |s|
  {
    if |s| > 0 && IsSpace(s[|s| - 1]) {
      TrimEndRemovesSpace(s[..|s| - 1]);
      forall k | |TrimEnd(s)| <= k < |s| - 1 ensures IsSpace(s[k]) {
        assert s[k] == s[..|s| - 1][k];
      }
    }
  }

  /** Trimming yields the empty string exactly for all-whitespace input. */
  lemma TrimEmpty(s: string)
    ensures Trim(s) == [] <==> AllSpace(s)
  {
    var t := TrimStart(s);
    TrimStartIsSuffix(s);
    TrimEndIsPrefix(t);
    TrimStartRemovesSpace(s);
    TrimEndRemovesSpace(t);
    assert |t| > 0 ==> t[0] == s[|s| - |t|];
  }

  lemma TrimStartAround(pre: string, x: string)
    requires AllSpace(pre)
    requires |x| == 0 || !IsSpace(x[0])
    ensures TrimStart(pre + x) == x
    decreases |pre|
  {
    if |pre| > 0 {
      assert (pre + x)[1..] == pre[1..] + x;
      TrimStartAround(pre[1..], x);
    } else {
      assert pre + x == x;
    }
  }

  lemma TrimEndAround(x: string, post: string)
    requires AllSpace(post)
    requires |x| == 0 || !IsSpace(x[|x| - 1])
    ensures TrimEnd(x + post) == x
    decreases |post|
  {
    if |post| > 0 {
      assert (x + post)[..|x + post| - 1] == x + post[..|post| - 1];
      TrimEndAround(x, post[..|post| - 1]);
    } else {
      assert x + post == x;
    }
  }

  /** Trimming removes exactly the surrounding whitespace. */
  lemma TrimAround(pre: string, x: string, post: string)
    requires AllSpace(pre) && AllSpace(post)
    requires IsTrimmed(x)
    ensures Trim(pre + x + post) == x
  {
    if |x| == 0 {
      assert pre + x + post == pre + post;
      TrimStartAround(pre + post, "");
      assert pre + post + "" == pre + post;
    } else {
      assert pre + x + post == pre + (x + post);
      TrimStartAround(pre, x + post);
      TrimEndAround(x, post);
    }
  }

  lemma TrimmedFixed(x: string)
    requires IsTrimmed(x)
    ensures Trim(x) == x
  {
    TrimAround([], x, []);
    assert [] + x + [] == x;
  }

  lemma TrimIdempotent(s: string)
    ensures Trim(Trim(s)) == Trim(s)
  {
    TrimmedFixed(Trim(s));
  }

  function LowerChar(c: char): char {
    if 'A' <= c <= 'Z' then (c as int + 32) as char else c
  }

  /** ASCII `toLowerCase` / `lower()`. */
  function Lower(s: string): (r: string)
    ensures |r| == |s|
    ensures forall i :: 0 <= i < |s| ==> r[i] == LowerChar(s[i])
  {
    seq(|s|, i requires 0 <= i < |s| => LowerChar(s[i]))
  }

  predicate NotUpper(c: char) {
    !('A' <= c <= 'Z')
  }

  /** No ASCII capital letter occurs. */
  predicate NoUpper(s: string) {
    AllIn(s, NotUpper)
  }

  lemma LowerIdempotent(s: string)
    ensures Lower(Lower(s)) == Lower(s)
  {
  }

  predicate IsLetter(c: char) {
    ('a' <= c <= 'z') || ('A' <= c <= 'Z')
  }

  /** The regular expression `/^[a-z]+$/i`. */
  predicate IsLetters(s: string) {
    |s| > 0 && forall k :: 0 <= k < |s| ==> IsLetter(s[k])
  }

  predicate StartsWith(s: string, p: string) {
    |p| <= |s| && s[..|p|] == p
  }

  predicate EndsWith(s: string, p: string) {
    |p| <= |s| && s[|s| - |p|..] == p
  }

  predicate OccursAt(s: string, sub: string, k: int) {
    0 <= k && k + |sub| <= |s| && s[k..k + |sub|] == sub
  }

  predicate Contains(s: string, sub: string) {
    exists k :: 0 <= k <= |s| - |sub| && OccursAt(s, sub, k)
  }

  /** First index at or after `from` where `sub` occurs, or -1. */
  function IndexOfFrom(s: string, sub: string, from: nat): (r: int)
    requires from <= |s|
    ensures r == -1 || (from <= r && OccursAt(s, sub, r))
    ensures r == -1 ==> forall k :: from <= k ==> !OccursAt(s, sub, k)
    ensures r != -1 ==> forall k :: from <= k < r ==> !OccursAt(s, sub, k)
    decreases |s| - from
  {
    if from + |sub| > |s| then -1
    else if s[from..from + |sub|] == sub then from
    else IndexOfFrom(s, sub, from + 1)
  }

  /** `indexOf`: first occurrence of `sub`, or -1. */
  function IndexOf(s: string, sub: string): (r: int)
    ensures r == -1 || (0 <= r && r + |sub| <= |s|)
  {
    IndexOfFrom(s, sub, 0)
  }

  /** `indexOf` is -1 exactly when `sub` does not occur, and otherwise the
      first place where it does. */
  lemma IndexOfMeaning(s: string, sub: string)
    ensures IndexOf(s, sub) == -1 <==> !Contains(s, sub)
    ensures IndexOf(s, sub) != -1 ==>
      OccursAt(s, sub, IndexOf(s, sub)) && forall k :: 0 <= k < IndexOf(s, sub) ==> !OccursAt(s, sub, k)
  {
    var r := IndexOfFrom(s, sub, 0);
    assert r != -1 ==> r <= |s| - |sub|;
  }

  /** `indexOf` for one character, or -1. */
  function IndexOfChar(s: string, c: char): (r: int)
    ensures -1 <= r < |s|
    ensures r >= 0 ==> s[r] == c && Lacks(s[..r], c)
    ensures r == -1 ==> Lacks(s, c)
    decreases |s|
  {
    if |s| == 0 then -1
    else if s[0] == c then 0
    else
      var k := IndexOfChar(s[1..], c);
      assert k >= 0 ==> s[..k + 1] == [s[0]] + s[1..][..k];
      if k == -1 then -1 else k + 1
  }

  /** `lastIndexOf` for one character, or -1. */
  function LastIndexOf(s: string, c: char): (r: int)
    ensures -1 <= r < |s|
    ensures r >= 0 ==> s[r] == c && forall k :: r < k < |s| ==> s[k] != c
    ensures r == -1 ==> forall k :: 0 <= k < |s| ==> s[k] != c
    decreases |s|
  {
    if |s| == 0 then -1
    else if s[|s| - 1] == c then |s| - 1
    else LastIndexOf(s[..|s| - 1], c)
  }

  /** `s.split(sep)` for a non-empty literal separator: the pieces between
      the left-most non-overlapping occurrences of `sep`. */
  function Split(s: string, sep: string): (r: seq<string>)
    requires |sep| > 0
    ensures |r| >= 1
    decreases |s|
  {
    var i := IndexOf(s, sep);
    if i < 0 then [s] else [s[..i]] + Split(s[i + |sep|..], sep)
  }

  /** `parts.join(sep)`. */
  function Join(parts: seq<string>, sep: string): string
    decreases |parts|
  {
    if |parts| == 0 then ""
    else if |parts| == 1 then parts[0]
    else parts[0] + sep + Join(parts[1..], sep)
  }

  /** Each text with `prefix` in front: `xs.map(x => prefix + x)`. */
  function PrefixEach(prefix: string, xs: seq<string>): (r: seq<string>)
    ensures |r| == |xs| && forall i :: 0 <= i < |xs| ==> r[i] == prefix + xs[i]
  {
    seq(|xs|, i requires 0 <= i < |xs| => prefix + xs[i])
  }

  lemma JoinCons(a: string, tail: seq<string>, sep: string)
    requires |tail| >= 1
    ensures Join([a] + tail, sep) == a + sep + Join(tail, sep)
  {
    assert ([a] + tail)[1..] == tail;
  }

  /** Whether any of `ms` occurs in `t` (Python's `any(p in t for p in ms)`). */
  function ContainsAny(t: string, ms: seq<string>): bool
    decreases |ms|
  {
    if |ms| == 0 then false
    else if IndexOf(t, ms[0]) != -1 then true
    else ContainsAny(t, ms[1..])
  }

  /** `ContainsAny` holds exactly when one of the patterns occurs. */
  lemma {:induction false} ContainsAnyMeaning(t: string, ms: seq<string>)
    ensures ContainsAny(t, ms) <==> exists i :: 0 <= i < |ms| && Contains(t, ms[i])
    decreases |ms|
  {
    if |ms| > 0 {
      IndexOfMeaning(t, ms[0]);
      ContainsAnyMeaning(t, ms[1..]);
      assert forall i :: 1 <= i < |ms| ==> ms[i] == ms[1..][i - 1];
    }
  }

  /** A joined list begins with its first element. */
  lemma {:induction false} JoinStartsWith(es: seq<string>, sep: string)
    requires |es| >= 1
    ensures StartsWith(Join(es, sep), es[0])
  {
    if |es| > 1 {
      assert es == [es[0]] + es[1..];
      JoinCons(es[0], es[1..], sep);
    }
  }

  lemma SplitStep(s: string, sep: string, i: int)
    requires |sep| > 0 && i == IndexOf(s, sep) && i >= 0
    ensures i + |sep| <= |s|
    ensures Split(s, sep) == [s[..i]] + Split(s[i + |sep|..], sep)
  {
  }

  lemma SplitNone(s: string, sep: string)
    requires |sep| > 0 && IndexOf(s, sep) == -1
    ensures Split(s, sep) == [s]
  {
  }

  lemma SliceAround(s: string, i: int, j: int)
    requires 0 <= i <= j <= |s|
    ensures s == s[..i] + s[i..j] + s[j..]
  {
  }

  /** Joining the pieces of a split gives the original string back. */
  lemma {:induction false} JoinSplit(s: string, sep: string)
    requires |sep| > 0
    ensures Join(Split(s, sep), sep) == s
    decreases |s|
  {
    var i := IndexOf(s, sep);
    if i >= 0 {
      var rest := s[i + |sep|..];
      SplitStep(s, sep, i);
      JoinCons(s[..i], Split(rest, sep), sep);
      JoinSplit(rest, sep);
      SliceAround(s, i, i + |sep|);
    }
  }

  predicate Lacks(s: string, c: char) {
    forall k :: 0 <= k < |s| ==> s[k] != c
  }

  lemma LacksConcat(a: string, b: string, c: char)
    requires Lacks(a, c) && Lacks(b, c)
    ensures Lacks(a + b, c)
  {
    forall k | 0 <= k < |a + b| ensures (a + b)[k] != c {
      if k < |a| { assert (a + b)[k] == a[k]; } else { assert (a + b)[k] == b[k - |a|]; }
    }
  }

  lemma IndexOfAbsent(s: string, sep: string)
    requires |sep| > 0 && Lacks(s, sep[0])
    ensures IndexOf(s, sep) == -1
  {
    IndexOfMeaning(s, sep);
    forall k | 0 <= k <= |s| - |sep| ensures !OccursAt(s, sep, k) {
      assert s[k..k + |sep|][0] == s[k];
    }
  }

  lemma IndexOfAfterFree(pre: string, sep: string, rest: string)
    requires |sep| > 0 && Lacks(pre, sep[0])
    ensures IndexOf(pre + sep + rest, sep) == |pre|
  {
    IndexOfMeaning(pre + sep + rest, sep);
    var s := pre + sep + rest;
    assert s[|pre|..|pre| + |sep|] == sep;
    assert OccursAt(s, sep, |pre|);
    forall k | 0 <= k < |pre| ensures !OccursAt(s, sep, k) {
      if k + |sep| <= |s| {
        assert s[k..k + |sep|][0] == pre[k];
      }
    }
  }

  lemma IndexOfCharAfterFree(pre: string, c: char, rest: string)
    requires Lacks(pre, c)
    ensures IndexOfChar(pre + [c] + rest, c) == |pre|
  {
    var s := pre + [c] + rest;
    assert s[|pre|] == c;
    forall k | 0 <= k < |pre| ensures s[k] != c {
      assert s[k] == pre[k];
    }
    forall j | |pre| < j <= |s| ensures !Lacks(s[..j], c) {
      assert s[..j][|pre|] == c;
    }
  }

  /** Splitting a joined list gives the list back when no piece contains the
      separator's first character. */
  lemma {:induction false} SplitJoin(parts: seq<string>, sep: string)
    requires |sep| > 0 && |parts| >= 1
    requires forall i :: 0 <= i < |parts| ==> Lacks(parts[i], sep[0])
    ensures Split(Join(parts, sep), sep) == parts
    decreases |parts|
  {
    if |parts| == 1 {
      IndexOfAbsent(parts[0], sep);
      SplitNone(parts[0], sep);
    } else {
      var tail := Join(parts[1..], sep);
      var s := parts[0] + sep + tail;
      assert Join(parts, sep) == s;
      IndexOfAfterFree(parts[0], sep, tail);
      SplitStep(s, sep, |parts[0]|);
      assert s[..|parts[0]|] == parts[0];
      assert s[|parts[0]| + |sep|..] == tail;
      SplitJoin(parts[1..], sep);
      assert parts == [parts[0]] + parts[1..];
    }
  }

  /** Keeps the non-empty strings, in order (`filter(Boolean)`). */
  function NonEmpty(ss: seq<string>): (r: seq<string>)
    ensures forall i :: 0 <= i < |r| ==> |r[i]| > 0
    ensures |r| <= |ss|
    decreases |ss|
  {
    if |ss| == 0 then []
    else (if |ss[0]| > 0 then [ss[0]] else []) + NonEmpty(ss[1..])
  }

  /** The filter drops nothing from a list without empty strings. */
  lemma {:induction false} NonEmptyKeepsAll(ss: seq<string>)
    requires forall i :: 0 <= i < |ss| ==> |ss[i]| > 0
    ensures NonEmpty(ss) == ss
    decreases |ss|
  {
    if |ss| > 0 {
      NonEmptyKeepsAll(ss[1..]);
      assert ss == [ss[0]] + ss[1..];
    }
  }

  /** The filter keeps exactly the non-empty members. */
  lemma {:induction false} NonEmptyMembers(ss: seq<string>, x: string)
    ensures x in NonEmpty(ss) <==> x in ss && |x| > 0
    decreases |ss|
  {
    if |ss| > 0 {
      NonEmptyMembers(ss[1..], x);
      assert x in ss <==> x == ss[0] || x in ss[1..] by {
        assert ss == [ss[0]] + ss[1..];
      }
    }
  }

  lemma {:induction false} NonEmptyAppend(a: seq<string>, b: seq<string>)
    ensures NonEmpty(a + b) == NonEmpty(a) + NonEmpty(b)
    decreases |a|
  {
    if |a| == 0 {
      assert a + b == b;
    } else {
      assert (a + b)[1..] == a[1..] + b;
      NonEmptyAppend(a[1..], b);
    }
  }

  /** Length of the longest prefix whose characters all have `P(c) == want`. */
  function PrefixLen(s: string, P: char -> bool, want: bool): (n: nat)
    ensures n <= |s|
    ensures forall k :: 0 <= k < n ==> P(s[k]) == want
    ensures n < |s| ==> P(s[n]) != want
    decreases |s|
  {
    if |s| == 0 || P(s[0]) != want then 0 else 1 + PrefixLen(s[1..], P, want)
  }

  predicate AllIn(s: string, P: char -> bool) {
    forall k :: 0 <= k < |s| ==> P(s[k])
  }

  /** Trimming only removes characters: a property of every character
      holds of every character left. */
  lemma TrimKeepsAll(s: string, P: char -> bool)
    requires AllIn(s, P)
    ensures AllIn(Trim(s), P)
  {
    var t := TrimStart(s);
    TrimStartIsSuffix(s);
    TrimEndIsPrefix(t);
    assert AllIn(t, P) by {
      forall k | 0 <= k < |t| ensures P(t[k]) {
        assert t[k] == s[|s| - |t| + k];
      }
    }
    forall k | 0 <= k < |Trim(s)| ensures P(Trim(s)[k]) {
      assert Trim(s)[k] == t[k];
    }
  }

  predicate NoneIn(s: string, P: char -> bool) {
    forall k :: 0 <= k < |s| ==> !P(s[k])
  }

  /** The maximal runs of characters satisfying `P`, left to right (the
      shape of Python's `str.split()` and of a `findall` over a character
      class). */
  function Runs(s: string, P: char -> bool): (r: seq<string>)
    ensures forall i :: 0 <= i < |r| ==> |r[i]| > 0 && AllIn(r[i], P)
    decreases |s|, 1
  {
    var gap := PrefixLen(s, P, false);
    if gap == |s| then [] else RunsAt(s[gap..], P)
  }

  /** The runs of a string that opens with a character in the class: the
      first run, then the runs of what follows it. */
  function RunsAt(s: string, P: char -> bool): (r: seq<string>)
    requires |s| > 0 && P(s[0])
    ensures forall i :: 0 <= i < |r| ==> |r[i]| > 0 && AllIn(r[i], P)
    decreases |s|, 0
  {
    var w := PrefixLen(s, P, true);
    var word := s[..w];
    assert AllIn(word, P) by {
      forall k | 0 <= k < w ensures P(word[k]) {
        assert word[k] == s[k];
      }
    }
    var tail := Runs(s[w..], P);
    assert forall i :: 1 <= i < |tail| + 1 ==> ([word] + tail)[i] == tail[i - 1];
    [word] + tail
  }

  lemma PrefixLenAppend(g: string, t: string, P: char -> bool, want: bool)
    requires forall k :: 0 <= k < |g| ==> P(g[k]) == want
    ensures PrefixLen(g + t, P, want) == |g| + PrefixLen(t, P, want)
    decreases |g|
  {
    if |g| > 0 {
      assert (g + t)[1..] == g[1..] + t;
      PrefixLenAppend(g[1..], t, P, want);
    } else {
      assert g + t == t;
    }
  }

  /** A gap of characters outside the class does not change the runs. */
  lemma RunsSkipsGap(g: string, t: string, P: char -> bool)
    requires NoneIn(g, P)
    ensures Runs(g + t, P) == Runs(t, P)
  {
    var s := g + t;
    var gap := PrefixLen(t, P, false);
    assert PrefixLen(s, P, false) == |g| + gap by {
      PrefixLenAppend(g, t, P, false);
    }
    assert s[|g| + gap..] == t[gap..] by {
      DropAppend(g, t, gap);
    }
  }

  lemma DropAppend(g: string, t: string, n: nat)
    requires n <= |t|
    ensures (g + t)[|g| + n..] == t[n..]
  {
  }

  lemma RunsCons(w: string, tail: string, P: char -> bool)
    requires |w| > 0 && AllIn(w, P)
    requires |tail| == 0 || !P(tail[0])
    ensures Runs(w + tail, P) == [w] + Runs(tail, P)
  {
    var s := w + tail;
    assert PrefixLen(s, P, false) == 0;
    assert s[0..] == s;
    PrefixLenAppend(w, tail, P, true);
    assert s[..|w|] == w;
    assert s[|w|..] == tail;
  }

  /** Runs recover the words of a separator-joined list. */
  lemma {:induction false} RunsJoin(ws: seq<string>, sep: string, P: char -> bool)
    requires forall i :: 0 <= i < |ws| ==> |ws[i]| > 0 && AllIn(ws[i], P)
    requires |sep| > 0 && NoneIn(sep, P)
    ensures Runs(Join(ws, sep), P) == ws
    decreases |ws|
  {
    if |ws| == 1 {
      RunsCons(ws[0], "", P);
      assert ws[0] + "" == ws[0];
    } else if |ws| > 1 {
      var rest := Join(ws[1..], sep);
      assert ws == [ws[0]] + ws[1..];
      JoinCons(ws[0], ws[1..], sep);
      assert ws[0] + sep + rest == ws[0] + (sep + rest);
      assert (sep + rest)[0] == sep[0];
      RunsCons(ws[0], sep + rest, P);
      RunsSkipsGap(sep, rest, P);
      RunsJoin(ws[1..], sep, P);
    }
  }

  /** A non-empty gap of characters outside the class separates the runs
      of the text before it from the runs of the text after it. */
  lemma {:induction false} RunsAppendGap(a: string, g: string, b: string, P: char -> bool)
    requires |g| > 0 && NoneIn(g, P)
    ensures Runs(a + g + b, P) == Runs(a, P) + Runs(b, P)
    decreases |a|, 1
  {
    var gap := PrefixLen(a, P, false);
    if gap == |a| {
      assert NoneIn(a + g, P) by {
        forall k | 0 <= k < |a + g| ensures !P((a + g)[k]) {
          if k >= |a| {
            assert (a + g)[k] == g[k - |a|];
          }
        }
      }
      RunsSkipsGap(a + g, b, P);
    } else {
      var a' := a[gap..];
      assert a + g + b == a[..gap] + (a' + g + b) by {
        assert a == a[..gap] + a';
      }
      RunsSkipsGap(a[..gap], a' + g + b, P);
      RunsAtAppendGap(a', g, b, P);
    }
  }

  /** `RunsAppendGap` for a text that opens with a character in the class. */
  lemma {:induction false} RunsAtAppendGap(a: string, g: string, b: string, P: char -> bool)
    requires |a| > 0 && P(a[0]) && |g| > 0 && NoneIn(g, P)
    ensures Runs(a + g + b, P) == RunsAt(a, P) + Runs(b, P)
    decreases |a|, 0
  {
    var w := PrefixLen(a, P, true);
    var word := a[..w];
    var rest := a[w..];
    assert AllIn(word, P) by {
      forall k | 0 <= k < w ensures P(word[k]) {
        assert word[k] == a[k];
      }
    }
    var tail := rest + g + b;
    assert a + g + b == word + tail by {
      assert a == word + rest;
    }
    assert !P(tail[0]) by {
      if |rest| > 0 {
        assert tail[0] == rest[0] == a[w];
      } else {
        assert tail[0] == g[0];
      }
    }
    RunsCons(word, tail, P);
    RunsAppendGap(rest, g, b, P);
  }

  function DigitChar(d: nat): char
    requires d < 10
  {
    "0123456789"[d]
  }

  /** Decimal rendering of a natural number, as `str(n)` / `String(n)`. */
  function NatToString(n: nat): string
    decreases n
  {
    if n < 10 then [DigitChar(n)] else NatToString(n / 10) + [DigitChar(n % 10)]
  }
}
