/** `extract_resume`: the upload size limit, the text/PDF classification,
    the whitespace collapse of the extracted text and the summary returned
    to the page. UTF-8 decoding and the PDF reader are parameters. */
module Resume {
  import opened Wrappers
  import opened Text

  newtype byte = x: int | 0 <= x < 256

  /** The largest accepted upload, 5 MiB. */
  const MaxBytes := 5 * 1024 * 1024
  /** At most this many PDF pages are read. */
  const MaxPages := 20
  /** The length of the text preview. */
  const PreviewLength := 600
  /** The number of bytes decoded for the head preview. */
  const HeadBytes := 80

  /** The PDF magic number `%PDF`. */
  const PdfMagic: seq<byte> := [37, 80, 68, 70]

  /** `str.split()` without arguments: the maximal runs of non-whitespace. */
  predicate NotSpace(c: char) {
    !IsSpace(c)
  }

  function Words(s: string): (r: seq<string>)
    ensures forall i :: 0 <= i < |r| ==> |r[i]| > 0 && AllIn(r[i], NotSpace)
  {
    Runs(s, NotSpace)
  }


  /** Whitespace in the text is single spaces between words: no
      whitespace at either end, and no two whitespace characters in a row. */
  predicate SingleSpaced(s: string) {
    forall k :: 0 <= k < |s| && IsSpace(s[k]) ==>
      s[k] == ' ' && 0 < k < |s| - 1 && !IsSpace(s[k - 1]) && !IsSpace(s[k + 1])
  }

  lemma {:induction false} JoinSingleSpaced(ws: seq<string>)
    requires forall i :: 0 <= i < |ws| ==> |ws[i]| > 0 && AllIn(ws[i], NotSpace)
    ensures SingleSpaced(Join(ws, " "))
    ensures |ws| > 0 ==> |Join(ws, " ")| > 0 && !IsSpace(Join(ws, " ")[0])
    decreases |ws|
  {
    if |ws| == 1 {
      assert Join(ws, " ") == ws[0];
    } else if |ws| > 1 {
      var w := ws[0];
      var t := Join(ws[1..], " ");
      JoinSingleSpaced(ws[1..]);
      var j := Join(ws, " ");
      assert j == w + " " + t;
      assert !IsSpace(w[|w| - 1]);
      assert forall k :: 0 <= k < |w| ==> j[k] == w[k];
      assert j[|w|] == ' ' && j[|w| + 1] == t[0];
      assert forall m :: 0 <= m < |t| ==> j[|w| + 1 + m] == t[m];
    }
  }

  /** `" ".join(s.split())`: a single-spaced text with the same words. */
  function Collapse(s: string): (r: string)
    ensures SingleSpaced(r)
    ensures Words(r) == Words(s)
  {
    JoinSingleSpaced(Words(s));
    RunsJoin(Words(s), " ", NotSpace);
    Join(Words(s), " ")
  }

  /** The collapsed text is single-spaced and keeps the words of the input,
      so collapsing twice changes nothing. */
  lemma CollapseSpec(s: string)
    ensures SingleSpaced(Collapse(s))
    ensures Words(Collapse(s)) == Words(s)
    ensures Collapse(Collapse(s)) == Collapse(s)
  {
    JoinSingleSpaced(Words(s));
    RunsJoin(Words(s), " ", NotSpace);
  }

  /** A single-spaced text is trimmed. */
  lemma SingleSpacedTrimmed(s: string)
    requires SingleSpaced(s)
    ensures IsTrimmed(s)
  {
    if |s| > 0 {
      assert !IsSpace(s[0]);
      assert !IsSpace(s[|s| - 1]);
    }
  }

  /** `s.lower().endswith(suffix)` and `sub in s` on the lower-cased
      content type. */
  function IsText(contentType: string, filenameLower: string): (b: bool)
    ensures StartsWith(contentType, "text/plain") ==> b
    ensures EndsWith(filenameLower, ".txt") ==> b
    ensures |contentType| < 10 && |filenameLower| < 4 ==> !b
    ensures b <==> Contains(contentType, "text/plain") || EndsWith(filenameLower, ".txt")
  {
    assert StartsWith(contentType, "text/plain") ==> OccursAt(contentType, "text/plain", 0);
    Contains(contentType, "text/plain") || EndsWith(filenameLower, ".txt")
  }

  /** The PDF test: the content type mentions "pdf", the name ends in
      ".pdf", or the bytes open with the `%PDF` magic, each enough alone. */
  function IsPdf(contentType: string, filenameLower: string, blob: seq<byte>): (b: bool)
    ensures |blob| >= 4 && blob[..4] == PdfMagic ==> b
    ensures EndsWith(filenameLower, ".pdf") ==> b
    ensures StartsWith(contentType, "application/pdf") ==> b
    ensures b <==> Contains(contentType, "pdf") || EndsWith(filenameLower, ".pdf") || (|blob| >= 4 && blob[..4] == PdfMagic)
  {
    assert StartsWith(contentType, "application/pdf") ==> contentType[12..15] == "pdf" && OccursAt(contentType, "pdf", 12);
    Contains(contentType, "pdf") || EndsWith(filenameLower, ".pdf") || (|blob| >= 4 && blob[..4] == PdfMagic)
  }

  /** A page of the PDF as the reader yields it: its text (None when
      `extract_text` returns None) or a read failure. */
  datatype Page = PageText(text: Option<string>) | PageFailed

  datatype Summary = Summary(
    filename: string,
    contentType: string,
    sizeBytes: nat,
    headPreview: string,
    preview: string,
    textLength: nat,
    probablyScanned: bool)

  /** The reply: the summary, or an HTTP error with its status; a failed
      page carries its 1-based number. */
  datatype Reply =
    | Extracted(summary: Summary)
    | TooLarge
    | PdfUnreadable
    | PageUnreadable(page: nat)
    | Unsupported(detail: string)

  /** The HTTP status of the reply. */
  function Status(r: Reply): (code: nat)
    ensures code == 200 <==> r.Extracted?
    ensures code == 413 <==> r.TooLarge?
    ensures code == 400 <==> r.PdfUnreadable? || r.PageUnreadable?
    ensures code == 415 <==> r.Unsupported?
  {
    match r
    case Extracted(_) => 200
    case TooLarge => 413
    case PdfUnreadable => 400
    case PageUnreadable(_) => 400
    case Unsupported(_) => 415
  }

  /** The texts of the pages read, in order, or the 1-based number of the
      first page that failed. */
  function PageTexts(pages: seq<Page>, from: nat): (r: Result<seq<string>>)
    ensures r.Ok? ==> |r.value| == |pages|
    ensures r.Ok? <==> forall i :: 0 <= i < |pages| ==> pages[i].PageText?
    ensures r.Ok? ==> forall i :: 0 <= i < |pages| ==>
      pages[i].PageText? && r.value[i] == pages[i].text.GetOr("")
    ensures r.Err? ==> (
      && from < r.page <= from + |pages| && pages[r.page - from - 1].PageFailed?
      && forall i :: 0 <= i < r.page - from - 1 ==> pages[i].PageText?)
    decreases |pages|
  {
    if |pages| == 0 then Ok([])
    else if pages[0].PageFailed? then Err(from + 1)
    else
      var rest := PageTexts(pages[1..], from + 1);
      assert forall i :: 1 <= i < |pages| ==> pages[i] == pages[1..][i - 1];
      if rest.Err? then Err(rest.page)
      else
        var ts := [pages[0].text.GetOr("")] + rest.value;
        assert forall i :: 1 <= i < |pages| ==> ts[i] == rest.value[i - 1];
        Ok(ts)
  }

  datatype Result<T> = Ok(value: T) | Err(page: nat)

  /** The first `MaxPages` pages. */
  function ReadPages(pages: seq<Page>): (r: seq<Page>)
    ensures |r| <= MaxPages && r <= pages
    ensures |pages| <= MaxPages ==> r == pages
  {
    if |pages| <= MaxPages then pages else pages[..MaxPages]
  }

  /** `text[:600]`. */
  function Preview(text: string): (r: string)
    ensures r <= text && |r| == (if |text| < PreviewLength then |text| else PreviewLength)
  {
    if |text| <= PreviewLength then text else text[..PreviewLength]
  }

  /** The text of the document, before the preview is cut: the decoded
      text for a text file, otherwise the text of the PDF's first pages
      joined by blank lines; collapsed either way. Err(0) when the PDF
      cannot be opened, Err(n) when page n cannot be read. */
  function DocumentText(blob: seq<byte>, isTxt: bool, decode: seq<byte> -> string,
                        openPdf: seq<byte> -> Option<seq<Page>>): (r: Result<string>)
    ensures r.Ok? ==> SingleSpaced(r.value)
    ensures r.Err? ==> !isTxt
    ensures isTxt ==> r.Ok? && Words(r.value) == Words(decode(blob))
    ensures !isTxt ==> (r == Err(0) <==> openPdf(blob).None?)
    ensures !isTxt && openPdf(blob).Some? ==>
      var t := PageTexts(ReadPages(openPdf(blob).value), 0);
      && (r.Ok? <==> t.Ok?)
      && (t.Err? ==> r == Err(t.page))
      && (t.Ok? ==> Words(r.value) == Words(Join(t.value, "\n\n")))
  {
    if isTxt then
      CollapseSpec(decode(blob));
      Ok(Collapse(decode(blob)))
    else
      match openPdf(blob)
      case None => Err(0)
      case Some(pages) =>
        match PageTexts(ReadPages(pages), 0)
        case Err(n) => Err(n)
        case Ok(ts) =>
          CollapseSpec(Join(ts, "\n\n"));
          Ok(Collapse(Join(ts, "\n\n")))
  }

  /** The words of the page texts, page after page. */
  function PagesWords(ts: seq<string>): seq<string>
    decreases |ts|
  {
    if |ts| == 0 then [] else Words(ts[0]) + PagesWords(ts[1..])
  }

  /** Joining the page texts with blank lines neither merges nor splits a
      word: the words of the joined text are the pages' words in order. */
  lemma {:induction false} JoinedPagesWords(ts: seq<string>)
    ensures Words(Join(ts, "\n\n")) == PagesWords(ts)
    decreases |ts|
  {
    if |ts| == 1 {
      assert PagesWords(ts[1..]) == [];
    } else if |ts| > 1 {
      var rest := Join(ts[1..], "\n\n");
      JoinCons(ts[0], ts[1..], "\n\n");
      assert [ts[0]] + ts[1..] == ts;
      RunsAppendGap(ts[0], "\n\n", rest, NotSpace);
      JoinedPagesWords(ts[1..]);
    }
  }

  /** For a PDF whose pages are all read, the words of the document are
      the words of its first `MaxPages` pages, in page order. */
  lemma PdfWords(blob: seq<byte>, decode: seq<byte> -> string, openPdf: seq<byte> -> Option<seq<Page>>)
    requires openPdf(blob).Some?
    requires PageTexts(ReadPages(openPdf(blob).value), 0).Ok?
    ensures var pages := ReadPages(openPdf(blob).value);
      var r := DocumentText(blob, false, decode, openPdf);
      && r.Ok?
      && Words(r.value) == PagesWords(seq(|pages|, i requires 0 <= i < |pages| => pages[i].text.GetOr("")))
  {
    var pages := ReadPages(openPdf(blob).value);
    var ts := PageTexts(pages, 0).value;
    assert ts == seq(|pages|, i requires 0 <= i < |pages| => pages[i].text.GetOr(""));
    JoinedPagesWords(ts);
  }

  /** `(content_type or "").lower().strip()`: trimmed, without capitals,
      no longer than the header, and "" when the header is missing. */
  function ContentType(contentType: Option<string>): (r: string)
    ensures IsTrimmed(r) && NoUpper(r)
    ensures |r| <= |contentType.GetOr("")|
    ensures contentType.None? ==> r == ""
  {
    var l := Lower(contentType.GetOr(""));
    assert AllIn(l, NotUpper);
    TrimKeepsAll(l, NotUpper);
    Trim(l)
  }

  /** A normalised content type is normalised already. */
  lemma ContentTypeIdempotent(contentType: Option<string>)
    ensures ContentType(Some(ContentType(contentType))) == ContentType(contentType)
  {
    var c := ContentType(contentType);
    assert Lower(c) == c;
    TrimmedFixed(c);
  }

  /** `blob[:80]`. */
  function Head(blob: seq<byte>): seq<byte> {
    if |blob| <= HeadBytes then blob else blob[..HeadBytes]
  }

  /** `extract_resume` for an upload of `blob` with the given content type
      and filename. `decode` is `bytes.decode("utf-8", errors="ignore")`,
      and `openPdf` is `PdfReader` with its pages, None when it cannot open
      the document. */
  function ExtractResume(blob: seq<byte>, contentType: Option<string>, filename: Option<string>,
                         decode: seq<byte> -> string, openPdf: seq<byte> -> Option<seq<Page>>): (r: Reply)
    ensures r == TooLarge <==> |blob| > MaxBytes
    ensures r.Unsupported? <==>
      && |blob| <= MaxBytes
      && !IsText(ContentType(contentType), Lower(filename.GetOr("")))
      && !IsPdf(ContentType(contentType), Lower(filename.GetOr("")), blob)
    ensures r.PdfUnreadable? || r.PageUnreadable? ==> !IsText(ContentType(contentType), Lower(filename.GetOr("")))
    ensures r.Extracted? ==>
      && r.summary.filename == filename.GetOr("")
      && r.summary.contentType == ContentType(contentType)
      && r.summary.sizeBytes == |blob| <= MaxBytes
      && r.summary.headPreview == decode(Head(blob))
      && |r.summary.preview| <= PreviewLength
  {
    if |blob| > MaxBytes then TooLarge
    else
      var ct := ContentType(contentType);
      var name := filename.GetOr("");
      var isTxt := IsText(ct, Lower(name));
      var isPdf := IsPdf(ct, Lower(name), blob);
      if !isTxt && !isPdf then Unsupported("Unsupported file type: " + (if |ct| > 0 then ct else name))
      else
        match DocumentText(blob, isTxt, decode, openPdf)
        case Err(n) => if n == 0 then PdfUnreadable else PageUnreadable(n)
        case Ok(text) =>
          Extracted(Summary(name, ct, |blob|, decode(Head(blob)), Preview(text), |text|, isPdf && |text| == 0))
  }

  /** The summary describes the document text: the preview is its first
      600 characters, the length is its length, and the scan flag is set
      exactly for an empty text from a file that also looks like a PDF. */
  lemma SummaryOfText(blob: seq<byte>, contentType: Option<string>, filename: Option<string>,
                      decode: seq<byte> -> string, openPdf: seq<byte> -> Option<seq<Page>>)
    requires ExtractResume(blob, contentType, filename, decode, openPdf).Extracted?
    ensures var isTxt := IsText(ContentType(contentType), Lower(filename.GetOr("")));
      var isPdf := IsPdf(ContentType(contentType), Lower(filename.GetOr("")), blob);
      var d := DocumentText(blob, isTxt, decode, openPdf);
      var s := ExtractResume(blob, contentType, filename, decode, openPdf).summary;
      && d.Ok? && SingleSpaced(d.value)
      && s.preview == Preview(d.value) && s.textLength == |d.value|
      && (s.probablyScanned <==> isPdf && |d.value| == 0)
  {
  }

  /** A file classified as text is decoded and never handed to the PDF
      reader, even when it also looks like a PDF. */
  lemma TextBeforePdf(blob: seq<byte>, contentType: Option<string>, filename: Option<string>,
                      decode: seq<byte> -> string, openPdf: seq<byte> -> Option<seq<Page>>,
                      otherPdf: seq<byte> -> Option<seq<Page>>)
    requires |blob| <= MaxBytes
    requires IsText(ContentType(contentType), Lower(filename.GetOr("")))
    ensures ExtractResume(blob, contentType, filename, decode, openPdf)
         == ExtractResume(blob, contentType, filename, decode, otherPdf)
    ensures ExtractResume(blob, contentType, filename, decode, openPdf).Extracted?
  {
  }

  /** Pages after the twentieth are never read: documents that agree on
      their first twenty pages give the same reply, even when a later page
      would fail. */
  lemma PagesAfterLimitIgnored(pages: seq<Page>, more: seq<Page>)
    requires |pages| >= MaxPages
    ensures PageTexts(ReadPages(pages + more), 0) == PageTexts(ReadPages(pages), 0)
  {
    assert ReadPages(pages + more) == ReadPages(pages) by {
      assert (pages + more)[..MaxPages] == pages[..MaxPages];
    }
  }
}
