/** `build_context`: takes a budgeted prefix of the retrieved chunks and
    labels each selected piece with its citation index. */
module Context {
  import opened Text

  /** The defaults of `build_context`. */
  const DefaultMaxChars := 300
  const DefaultMaxChunks := 3

  /** The summed length of the pieces. */
  function TotalLength(ps: seq<string>): nat
    decreases |ps|
  {
    if |ps| == 0 then 0 else |ps[0]| + TotalLength(ps[1..])
  }

  /** `ch[:remaining]` for a positive `remaining`. */
  function Head(ch: string, remaining: int): (r: string)
    requires remaining > 0
    ensures |r| <= remaining && r <= ch
    ensures |r| < |ch| ==> |r| == remaining
  {
    if remaining < |ch| then ch[..remaining] else ch
  }

  /** The loop of `build_context` over `chunks` with `budget` characters and
      `slots` pieces still allowed: the pieces it selects, in order, the
      j-th taken from `chunks[j]`. */
  function Select(chunks: seq<string>, budget: int, slots: int): (r: seq<string>)
    ensures |r| <= |chunks| && (|r| == 0 || |r| <= slots)
    ensures |r| > 0 ==> TotalLength(r) <= budget
    ensures forall j :: 0 <= j < |r| ==> 0 < |r[j]| && r[j] <= chunks[j]
    ensures forall j :: 0 <= j < |r| - 1 ==> r[j] == chunks[j]
    ensures |r| < |chunks| ==> |r| >= slots || TotalLength(r) >= budget || |chunks[|r|]| == 0
    ensures |r| > 0 && |r[|r| - 1]| < |chunks[|r| - 1]| ==> TotalLength(r) == budget
    decreases |chunks|
  {
    if |chunks| == 0 || slots <= 0 || budget <= 0 then []
    else
      var piece := Head(chunks[0], budget);
      if |piece| == 0 then []
      else
        var rest := Select(chunks[1..], budget - |piece|, slots - 1);
        var r := [piece] + rest;
        assert TotalLength(r) == |piece| + TotalLength(rest) by {
          assert r[1..] == rest;
        }
        assert |rest| > 0 ==> r[|r| - 1] == rest[|rest| - 1] && chunks[|r| - 1] == chunks[1..][|rest| - 1];
        r
  }

  /** One citation: the index of the chunk and the length of its piece. */
  datatype Citation = Citation(chunkIndex: nat, length: nat)

  datatype Built = Built(context: string, citations: seq<Citation>)

  /** The label of the j-th selected piece, `f"[{i}] {text}"`. */
  function Entry(j: nat, piece: string): string {
    "[" + NatToString(j) + "] " + piece
  }

  function Entries(ps: seq<string>): (r: seq<string>)
    ensures |r| == |ps| && forall j :: 0 <= j < |ps| ==> r[j] == Entry(j, ps[j])
  {
    seq(|ps|, j requires 0 <= j < |ps| => Entry(j, ps[j]))
  }

  function Citations(ps: seq<string>): (r: seq<Citation>)
    ensures |r| == |ps| && forall j :: 0 <= j < |ps| ==> r[j] == Citation(j, |ps[j]|)
  {
    seq(|ps|, j requires 0 <= j < |ps| => Citation(j, |ps[j]|))
  }

  /** `build_context(chunks, max_chars, max_chunks)`. */
  function BuildContext(chunks: seq<string>, maxChars: int, maxChunks: int): (r: Built)
    ensures |r.citations| <= |chunks| && (|r.citations| == 0 || |r.citations| <= maxChunks)
    ensures forall j :: 0 <= j < |r.citations| ==>
      r.citations[j].chunkIndex == j && 0 < r.citations[j].length <= |chunks[j]|
    ensures forall j :: 0 <= j < |r.citations| - 1 ==> r.citations[j].length == |chunks[j]|
    ensures forall j :: 0 <= j < |chunks| && chunks[j] == "" ==> |r.citations| <= j
    ensures var n := |r.citations|;
      n > 0 && r.citations[n - 1].length < |chunks[n - 1]| ==> CitedLength(r.citations) == maxChars
  {
    var ps := Select(chunks, maxChars, maxChunks);
    CitedLengthMatches(Citations(ps), ps);
    Built(Join(Entries(ps), "\n\n"), Citations(ps))
  }

  /** The pieces the citations name: the first `length` characters of each
      cited chunk. */
  function CitedPieces(chunks: seq<string>, cs: seq<Citation>): (r: seq<string>)
    requires |cs| <= |chunks|
    requires forall j :: 0 <= j < |cs| ==> cs[j].length <= |chunks[j]|
    ensures |r| == |cs| && forall j :: 0 <= j < |cs| ==> r[j] <= chunks[j] && |r[j]| == cs[j].length
  {
    seq(|cs|, j requires 0 <= j < |cs| => chunks[j][..cs[j].length])
  }

  /** The context is exactly the labelled pieces that the citations name,
      separated by blank lines: the two halves of the result agree. */
  lemma ContextMatchesCitations(chunks: seq<string>, maxChars: int, maxChunks: int)
    ensures var r := BuildContext(chunks, maxChars, maxChunks);
      r.context == Join(Entries(CitedPieces(chunks, r.citations)), "\n\n")
  {
    var ps := Select(chunks, maxChars, maxChunks);
    var cs := Citations(ps);
    var qs := CitedPieces(chunks, cs);
    forall j | 0 <= j < |ps|
      ensures qs[j] == ps[j]
    {
      assert ps[j] <= chunks[j];
      assert chunks[j][..|ps[j]|] == ps[j];
    }
    assert qs == ps;
  }

  /** The summed length of the cited pieces. */
  function CitedLength(cs: seq<Citation>): nat
    decreases |cs|
  {
    if |cs| == 0 then 0 else cs[0].length + CitedLength(cs[1..])
  }

  lemma {:induction false} CitedLengthMatches(cs: seq<Citation>, ps: seq<string>)
    requires |cs| == |ps| && forall j :: 0 <= j < |ps| ==> cs[j].length == |ps[j]|
    ensures CitedLength(cs) == TotalLength(ps)
    decreases |ps|
  {
    if |ps| > 0 {
      CitedLengthMatches(cs[1..], ps[1..]);
    }
  }

  /** The cited lengths add up to at most the character budget. */
  lemma BudgetKept(chunks: seq<string>, maxChars: int, maxChunks: int)
    ensures var r := BuildContext(chunks, maxChars, maxChunks);
      |r.citations| > 0 ==> CitedLength(r.citations) <= maxChars
  {
    var ps := Select(chunks, maxChars, maxChunks);
    CitedLengthMatches(Citations(ps), ps);
  }

  /** The selection stops early only for one of the source's three reasons:
      the slots are used up, the budget is spent, or the next chunk is
      empty. */
  lemma StopsForAReason(chunks: seq<string>, maxChars: int, maxChunks: int)
    ensures var r := BuildContext(chunks, maxChars, maxChunks);
      |r.citations| < |chunks| ==>
        || |r.citations| >= maxChunks
        || CitedLength(r.citations) >= maxChars
        || chunks[|r.citations|] == ""
  {
    var ps := Select(chunks, maxChars, maxChunks);
    CitedLengthMatches(Citations(ps), ps);
  }

  /** The context is empty exactly when nothing was selected, and otherwise
      begins with the label of chunk 0. */
  lemma ContextStart(chunks: seq<string>, maxChars: int, maxChunks: int)
    ensures var r := BuildContext(chunks, maxChars, maxChunks);
      && (|r.citations| == 0 <==> r.context == "")
      && (|r.citations| > 0 ==> StartsWith(r.context, "[0] "))
  {
    var ps := Select(chunks, maxChars, maxChunks);
    EntriesStart(ps);
  }

  /** The joined entries are empty iff there are no pieces, and otherwise
      open with the first label. */
  lemma EntriesStart(ps: seq<string>)
    ensures |ps| == 0 <==> Join(Entries(ps), "\n\n") == ""
    ensures |ps| > 0 ==> StartsWith(Join(Entries(ps), "\n\n"), "[0] ")
  {
    var es := Entries(ps);
    if |ps| > 0 {
      assert es[0] == "[0] " + ps[0];
      JoinStartsWith(es, "\n\n");
      assert Join(es, "\n\n")[..4] == es[0][..4];
    }
  }
}
