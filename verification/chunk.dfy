/** `chunk_text`: cuts a document into overlapping windows of at most `size`
    characters, preferring to end a window at a space near its limit. */
module Chunk {
  import opened Wrappers
  import opened Text

  /** The defaults of `chunk_text`. */
  const DefaultSize := 1200
  const DefaultOverlap := 200
  /** How far back from the hard limit a window looks for a space. */
  const SnapWindow := 100
  /** A space at or before `start + MinSnap` is too early to cut at. */
  const MinSnap := 20

  /** The settings under which every window ends past the next window's
      start, so the loop advances: a snapped window is at least
      max(size - SnapWindow, MinSnap + 1) long and an unsnapped one `size`
      long, and the overlap must stay below both. A larger overlap can stop
      the loop of the source from advancing. A negative overlap always
      advances, but the overlap is the number of characters repeated, so
      it is taken as non-negative here. */
  predicate Advances(size: int, overlap: int) {
    0 <= overlap < size && (overlap <= MinSnap || overlap < size - SnapWindow)
  }

  lemma DefaultsAdvance()
    ensures Advances(DefaultSize, DefaultOverlap)
  {
  }

  /** `text.rfind(" ", lo, hi)`: the last space in `t[lo..hi]`, or -1. */
  function LastSpace(t: string, lo: nat, hi: nat): (r: int)
    requires lo <= hi <= |t|
    ensures r == -1 || (lo <= r < hi && t[r] == ' ')
    ensures forall j :: lo <= j < hi && j > r ==> t[j] != ' '
    decreases hi
  {
    if hi == lo then -1
    else if t[hi - 1] == ' ' then hi - 1
    else LastSpace(t, lo, hi - 1)
  }

  /** The end of the window that starts at `start`: the hard limit
      `start + size` (or the end of the text), pulled back to the last space
      of the final `SnapWindow` characters when that space lies more than
      `MinSnap` characters into the window. */
  function WindowEnd(t: string, start: nat, size: int): (end: nat)
    requires start < |t| && size > 0
    ensures start < end <= |t| && end <= start + size
    ensures end == |t| <==> start + size >= |t|
    ensures (end < |t| && end < start + size) ==>
      && t[end] == ' ' && end > start + MinSnap && end >= start + size - SnapWindow
      && forall j :: end < j < start + size ==> t[j] != ' '
    ensures end == start + size < |t| ==>
      forall j :: start + MinSnap < j < start + size && j >= start + size - SnapWindow ==> t[j] != ' '
  {
    var hard := if start + size < |t| then start + size else |t|;
    if hard < |t| then
      var lo := if start + size - SnapWindow > start then start + size - SnapWindow else start;
      var snap := LastSpace(t, lo, hard);
      if snap != -1 && snap > start + MinSnap then snap else hard
    else hard
  }

  /** One window of the text, `t[start..end]`. */
  datatype Window = Window(start: nat, end: nat)

  /** The windows the loop visits from `start` on: each ends where
      `WindowEnd` puts it, the next starts `overlap` characters before the
      previous end, and the last one reaches the end of the text. */
  function Windows(t: string, start: nat, size: int, overlap: int): (r: seq<Window>)
    requires start < |t| && Advances(size, overlap)
    ensures |r| >= 1 && r[0].start == start
    ensures forall i :: 0 <= i < |r| ==> r[i].start < r[i].end <= |t| && r[i].end - r[i].start <= size
    ensures r[|r| - 1].end == |t|
    decreases |t| - start
  {
    var end := WindowEnd(t, start, size);
    if end >= |t| then [Window(start, end)]
    else
      NextStartAdvances(t, start, size, overlap);
      [Window(start, end)] + Windows(t, end - overlap, size, overlap)
  }

  /** Under `Advances`, a window that stops short of the end of the text
      ends more than `overlap` characters after it starts. */
  lemma NextStartAdvances(t: string, start: nat, size: int, overlap: int)
    requires start < |t| && Advances(size, overlap)
    requires WindowEnd(t, start, size) < |t|
    ensures start < WindowEnd(t, start, size) - overlap < |t|
  {
  }

  /** Every window but the last stops short of the end of the text, and
      the next one starts `overlap` characters before it ends. */
  predicate Chained(ws: seq<Window>, n: nat, overlap: int) {
    forall i :: 0 <= i < |ws| - 1 ==> ws[i].end < n && ws[i + 1].start == ws[i].end - overlap
  }

  /** The windows the loop visits form such a chain. */
  lemma {:induction false} WindowsChain(t: string, start: nat, size: int, overlap: int)
    requires start < |t| && Advances(size, overlap)
    ensures Chained(Windows(t, start, size, overlap), |t|, overlap)
    decreases |t| - start
  {
    var ws := Windows(t, start, size, overlap);
    var end := WindowEnd(t, start, size);
    if end < |t| {
      NextStartAdvances(t, start, size, overlap);
      var rest := Windows(t, end - overlap, size, overlap);
      WindowsChain(t, end - overlap, size, overlap);
      assert ws == [Window(start, end)] + rest;
      ChainCons(Window(start, end), rest, |t|, overlap);
    }
  }

  /** A window that stops short of the end and ends `overlap` characters
      after the next chain starts extends that chain. */
  lemma ChainCons(w: Window, rest: seq<Window>, n: nat, overlap: int)
    requires Chained(rest, n, overlap) && |rest| >= 1
    requires w.end < n && rest[0].start == w.end - overlap
    ensures Chained([w] + rest, n, overlap)
  {
    var ws := [w] + rest;
    forall i | 0 <= i < |ws| - 1 ensures ws[i].end < n && ws[i + 1].start == ws[i].end - overlap {
      if i > 0 {
        assert ws[i] == rest[i - 1] && ws[i + 1] == rest[i];
      }
    }
  }

  /** Position `k` lies inside one of the windows. */
  predicate Covered(ws: seq<Window>, k: nat) {
    exists i :: 0 <= i < |ws| && ws[i].start <= k < ws[i].end
  }

  /** A chain of windows, each starting no later than the previous one
      ends, covers every position from its first start to its last end. */
  lemma {:induction false} ChainCovers(ws: seq<Window>, k: nat)
    requires |ws| >= 1 && ws[0].start <= k < ws[|ws| - 1].end
    requires forall i :: 0 <= i < |ws| - 1 ==> ws[i + 1].start <= ws[i].end
    ensures Covered(ws, k)
    decreases |ws|
  {
    if k >= ws[0].end {
      var rest := ws[1..];
      assert rest[|rest| - 1] == ws[|ws| - 1];
      ChainCovers(rest, k);
      var i :| 0 <= i < |rest| && rest[i].start <= k < rest[i].end;
      assert ws[i + 1] == rest[i];
    }
  }

  /** Every character of the text lies in some window: the overlap never
      leaves a gap. */
  lemma WindowsCover(t: string, size: int, overlap: int, k: nat)
    requires k < |t| && Advances(size, overlap)
    ensures Covered(Windows(t, 0, size, overlap), k)
  {
    WindowsChain(t, 0, size, overlap);
    ChainCovers(Windows(t, 0, size, overlap), k);
  }

  /** The trimmed text of each window. */
  function Pieces(t: string, ws: seq<Window>): (r: seq<string>)
    requires forall i :: 0 <= i < |ws| ==> ws[i].start <= ws[i].end <= |t|
    ensures |r| == |ws|
    ensures forall i :: 0 <= i < |ws| ==> r[i] == Trim(t[ws[i].start..ws[i].end])
  {
    seq(|ws|, i requires 0 <= i < |ws| => Trim(t[ws[i].start..ws[i].end]))
  }

  /** `chunk_text(text, size, overlap)`; a missing text counts as "". */
  function ChunkText(text: Option<string>, size: int, overlap: int): (r: seq<string>)
    requires Advances(size, overlap)
    ensures forall i :: 0 <= i < |r| ==> 0 < |r[i]| <= size
  {
    var t := Trim(text.GetOr(""));
    if |t| == 0 then []
    else
      var ws := Windows(t, 0, size, overlap);
      var ps := Pieces(t, ws);
      PiecesFit(t, ws, size);
      NonEmptyBounded(ps, size);
      NonEmpty(ps)
  }

  /** A window no longer than `size` trims to at most `size` characters. */
  lemma PiecesFit(t: string, ws: seq<Window>, size: int)
    requires forall i :: 0 <= i < |ws| ==> ws[i].start <= ws[i].end <= |t| && ws[i].end - ws[i].start <= size
    ensures forall i :: 0 <= i < |ws| ==> |Pieces(t, ws)[i]| <= size
  {
  }

  lemma NonEmptyBounded(ps: seq<string>, size: int)
    requires forall j :: 0 <= j < |ps| ==> |ps[j]| <= size
    ensures forall i :: 0 <= i < |NonEmpty(ps)| ==> |NonEmpty(ps)[i]| <= size
  {
    forall i | 0 <= i < |NonEmpty(ps)| ensures |NonEmpty(ps)[i]| <= size {
      NonEmptyMembers(ps, NonEmpty(ps)[i]);
    }
  }

  /** A blank or missing text gives no chunks, and any other text at least
      one. */
  lemma ChunkTextEmpty(text: Option<string>, size: int, overlap: int)
    requires Advances(size, overlap)
    ensures ChunkText(text, size, overlap) == [] <==> AllSpace(text.GetOr(""))
  {
    var s := text.GetOr("");
    var t := Trim(s);
    TrimEmpty(s);
    if |t| > 0 {
      var ws := Windows(t, 0, size, overlap);
      var ps := Pieces(t, ws);
      var first := t[ws[0].start..ws[0].end];
      assert first[0] == t[0];
      TrimEmpty(first);
      NonEmptyMembers(ps, ps[0]);
    }
  }

  /** A text whose trimmed form fits in one window is one chunk: that
      trimmed text. */
  lemma ChunkTextShort(text: Option<string>, size: int, overlap: int)
    requires Advances(size, overlap)
    requires 0 < |Trim(text.GetOr(""))| <= size
    ensures ChunkText(text, size, overlap) == [Trim(text.GetOr(""))]
  {
    var t := Trim(text.GetOr(""));
    var ws := Windows(t, 0, size, overlap);
    assert ws == [Window(0, |t|)];
    assert t[0..|t|] == t;
    TrimmedFixed(t);
    var ps := Pieces(t, ws);
    assert ps == [t];
    NonEmptyKeepsAll(ps);
  }
}
