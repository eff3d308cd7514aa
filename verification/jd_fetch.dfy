/** `fetch_jd_text`: choosing which extracted text of a job posting to use,
    and the test for pages that only ask the reader to enable JavaScript.
    The network fetches and the HTML extractors are parameters. */
module JdFetch {
  import opened Wrappers
  import opened Text

  /** The lower-case markers of a page that needs JavaScript to show its
      content. */
  const JsPlaceholders: seq<string> := ["enable javascript", "requires javascript", "<noscript", "turn on javascript"]

  /** The minimum length of a usable extracted article. */
  const MinArticle := 500
  /** The minimum length of a usable meta description. */
  const MinMeta := 120
  /** How much raw HTML the last resort keeps. */
  const HtmlHead := 300

  /** `looks_js_placeholder`; a missing text counts as "". */
  function LooksJsPlaceholder(s: Option<string>): (r: bool)
    ensures r <==> exists i :: 0 <= i < |JsPlaceholders| && Contains(Lower(s.GetOr("")), JsPlaceholders[i])
  {
    ContainsAnyMeaning(Lower(s.GetOr("")), JsPlaceholders);
    ContainsAny(Lower(s.GetOr("")), JsPlaceholders)
  }

  lemma LowerConcat(a: string, b: string)
    ensures Lower(a + b) == Lower(a) + Lower(b)
  {
  }

  lemma ContainsWithin(pre: string, t: string, post: string, p: string)
    requires Contains(t, p)
    ensures Contains(pre + t + post, p)
  {
    var k :| 0 <= k <= |t| - |p| && OccursAt(t, p, k);
    assert (pre + t + post)[|pre| + k..|pre| + k + |p|] == t[k..k + |p|];
    assert OccursAt(pre + t + post, p, |pre| + k);
  }

  /** A placeholder marker stays visible whatever text surrounds it. */
  lemma PlaceholderInContext(pre: string, s: string, post: string)
    requires LooksJsPlaceholder(Some(s))
    ensures LooksJsPlaceholder(Some(pre + s + post))
  {
    var i :| 0 <= i < |JsPlaceholders| && Contains(Lower(s), JsPlaceholders[i]);
    LowerConcat(pre + s, post);
    LowerConcat(pre, s);
    ContainsWithin(Lower(pre), Lower(s), Lower(post), JsPlaceholders[i]);
  }

  /** The test ignores letter case. */
  lemma PlaceholderIgnoresCase(s: string)
    ensures LooksJsPlaceholder(Some(Lower(s))) == LooksJsPlaceholder(Some(s))
  {
    LowerIdempotent(s);
  }

  /** A usable article text: long enough and not a JavaScript placeholder. */
  predicate Usable(t: string) {
    |t| > 0 && |t| >= MinArticle && !LooksJsPlaceholder(Some(t))
  }

  /** The documented values of `path_used`. */
  datatype Path = Primary | MetaFallback | Rendered | BestEffort

  datatype Fetched = Fetched(text: string, path: Path)

  /** `html[:300]`. */
  function HtmlPrefix(html: string): string {
    if |html| <= HtmlHead then html else html[..HtmlHead]
  }

  /** The last resort: the first non-empty of the static text, the meta
      text and the start of the HTML, trimmed. */
  function BestEffortText(txt: string, meta: string, html: string): string {
    Trim(if |txt| > 0 then txt else if |meta| > 0 then meta else HtmlPrefix(html))
  }

  /** `fetch_jd_text(url, allow_render)` once the static page `html` is
      fetched. `readable` is `readability_extract`, `metaOf` is
      `extract_meta_fallback`, and `rendered` is the page Playwright renders,
      None when rendering raises. */
  function FetchJdText(html: string, readable: string -> string, metaOf: string -> string,
                       allowRender: bool, rendered: Option<string>): (r: Fetched)
    ensures r.path == Primary <==> Usable(Trim(readable(html)))
    ensures r.path == MetaFallback <==> !Usable(Trim(readable(html))) && |metaOf(html)| >= MinMeta
    ensures r.path == Rendered <==>
      && !Usable(Trim(readable(html))) && |metaOf(html)| < MinMeta
      && allowRender && rendered.Some? && Usable(Trim(readable(rendered.value)))
    ensures r.path == Primary ==> r.text == Trim(readable(html))
    ensures r.path == MetaFallback ==> r.text == metaOf(html)
    ensures r.path == Rendered ==> r.text == Trim(readable(rendered.value))
    ensures r.path == BestEffort ==> r.text == BestEffortText(Trim(readable(html)), metaOf(html), html)
  {
    var txt := Trim(readable(html));
    if Usable(txt) then Fetched(txt, Primary)
    else
      var meta := metaOf(html);
      if |meta| > 0 && |meta| >= MinMeta then Fetched(meta, MetaFallback)
      else if allowRender && rendered.Some? && Usable(Trim(readable(rendered.value))) then
        Fetched(Trim(readable(rendered.value)), Rendered)
      else Fetched(BestEffortText(txt, meta, html), BestEffort)
  }

  /** Without rendering the cascade never reports the rendered path, and the
      rendered page is not consulted. */
  lemma NoRenderWithoutPermission(html: string, readable: string -> string, metaOf: string -> string,
                                  rendered: Option<string>)
    ensures FetchJdText(html, readable, metaOf, false, rendered).path != Rendered
    ensures FetchJdText(html, readable, metaOf, false, rendered) == FetchJdText(html, readable, metaOf, false, None)
  {
  }

  /** A text reported on a path other than the last resort is non-empty and
      of that path's minimum length, and an article is never a placeholder. */
  lemma ChosenTextIsUsable(html: string, readable: string -> string, metaOf: string -> string,
                           allowRender: bool, rendered: Option<string>)
    ensures var r := FetchJdText(html, readable, metaOf, allowRender, rendered);
      && (r.path == Primary || r.path == Rendered ==> |r.text| >= MinArticle && !LooksJsPlaceholder(Some(r.text)))
      && (r.path == MetaFallback ==> |r.text| >= MinMeta)
  {
  }

  /** The last resort is empty only when the static text and the meta text
      are empty and the start of the HTML is blank. */
  lemma BestEffortEmpty(txt: string, meta: string, html: string)
    ensures BestEffortText(txt, meta, html) == "" <==>
      (AllSpace(txt) && (|txt| > 0 || AllSpace(meta)) && (|txt| > 0 || |meta| > 0 || AllSpace(HtmlPrefix(html))))
  {
    if |txt| > 0 {
      TrimEmpty(txt);
    } else if |meta| > 0 {
      TrimEmpty(meta);
    } else {
      TrimEmpty(HtmlPrefix(html));
    }
  }
}
