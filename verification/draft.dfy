/** The draft page's handling of one task's output: Markdown-fence stripping,
    brace-span JSON recovery, the order in which the response fields are
    consulted, the plain-text line fallback, the choice of presentation, and
    toggling a task in the checklist of tasks to run.

    `JSON.parse` is the parameter `parse`: it maps a text to the value it
    decodes to, or to None where it would throw. */
module Draft {
  import opened Wrappers
  import opened Text
  import opened Json

  datatype Task = Bullets | TalkingPoints | CoverLetter | Alignment

  const Fence: string := "```"

  /** The key of the bullet list in a bullets result. */
  const BulletsKey: string := "bullets"

  // ---------------------------------------------------------------------
  // parseJSON

  /** The payload inside a fence: trimmed, and without a first line made
      only of letters (a language tag such as `json`). */
  function Unfence(inner: string): (r: string)
    ensures IsTrimmed(inner) ==> IsTrimmed(r)
  {
    var nl := IndexOfChar(inner, '\n');
    if nl > -1 && IsLetters(Trim(inner[..nl])) then Trim(inner[nl + 1..]) else inner
  }

  /** The text `parseJSON` scans for braces: trimmed, and with one Markdown
      fence removed when the text opens with one that is closed later. */
  function StripFence(s: string): (r: string)
    ensures !StartsWith(Trim(s), Fence) ==> r == Trim(s)
    ensures IsTrimmed(r)
  {
    var txt := Trim(s);
    if StartsWith(txt, Fence) && |Split(txt, Fence)| >= 3 then Unfence(Trim(Split(txt, Fence)[1])) else txt
  }

  /** Positions of the first `{` and the last `}`, when both occur. */
  function BraceSpan(t: string): (r: Option<(nat, nat)>)
    ensures r.None? <==> (Lacks(t, '{') || Lacks(t, '}'))
    ensures r.Some? ==>
      var (i, j) := r.value;
      && i < |t| && j < |t| && t[i] == '{' && t[j] == '}'
      && Lacks(t[..i], '{')
      && (forall k :: j < k < |t| ==> t[k] != '}')
  {
    var first := IndexOfChar(t, '{');
    var last := LastIndexOf(t, '}');
    if first != -1 && last != -1 then Some((first, last)) else None
  }

  /** The texts handed to `JSON.parse`, in order: the widest brace span
      (`slice(first, last + 1)`, empty when the last `}` precedes the first
      `{`) when both braces occur, then the whole text. */
  function Attempts(t: string): (r: seq<string>)
    ensures 1 <= |r| <= 2 && r[|r| - 1] == t
    ensures |r| == 2 <==> BraceSpan(t).Some?
    ensures |r| == 2 && BraceSpan(t).value.0 <= BraceSpan(t).value.1 ==>
      r[0] == t[BraceSpan(t).value.0..BraceSpan(t).value.1 + 1]
  {
    match BraceSpan(t)
    case None => [t]
    case Some((i, j)) => [if i <= j then t[i..j + 1] else "", t]
  }

  /** The first attempt that parses, or None when every attempt throws. */
  function FirstParse(attempts: seq<string>, parse: string -> Option<Json>): (r: Option<Json>)
    ensures r.None? <==> forall k :: 0 <= k < |attempts| ==> parse(attempts[k]).None?
    ensures r.Some? ==> exists k :: (0 <= k < |attempts| && r == parse(attempts[k])
                                     && forall m :: 0 <= m < k ==> parse(attempts[m]).None?)
    decreases |attempts|
  {
    if |attempts| == 0 then None
    else if parse(attempts[0]).Some? then parse(attempts[0])
    else
      var r := FirstParse(attempts[1..], parse);
      assert forall k :: 1 <= k < |attempts| ==> attempts[k] == attempts[1..][k - 1];
      r
  }

  /** `!s || typeof s !== "string"` is false. */
  predicate NonEmptyText(s: Option<Json>) {
    s.Some? && s.value.JStr? && |s.value.s| > 0
  }

  /** `parseJSON`: nothing for a missing, non-string or empty input;
      otherwise the first of the brace span and the whole fence-stripped
      text that `JSON.parse` accepts. */
  function ParseJson(s: Option<Json>, parse: string -> Option<Json>): (r: Option<Json>)
    ensures !NonEmptyText(s) ==> r.None?
    ensures NonEmptyText(s) ==> r == FirstParse(Attempts(StripFence(s.value.s)), parse)
  {
    if !NonEmptyText(s) then None
    else FirstParse(Attempts(StripFence(s.value.s)), parse)
  }

  lemma LettersLack(tag: string, c: char)
    requires IsLetters(tag) && !IsLetter(c)
    ensures Lacks(tag, c)
  {
  }

  /** A fence around a backtick-free text splits into it and two empty
      outer parts. */
  lemma FenceSplit(x: string)
    requires Lacks(x, '`')
    ensures Split(Fence + x + Fence, Fence) == ["", x, ""]
  {
    var parts := ["", x, ""];
    JoinCons("", [x, ""], Fence);
    JoinCons(x, [""], Fence);
    assert Join(parts, Fence) == Fence + x + Fence by {
      assert [""] + [x, ""] == parts;
      assert [x] + [""] == [x, ""];
    }
    SplitJoin(parts, Fence);
  }

  /** The first line of `tag + "\n" + body` is the tag. */
  lemma TagLine(tag: string, body: string)
    requires IsLetters(tag)
    ensures IndexOfChar(tag + "\n" + body, '\n') == |tag|
    ensures (tag + "\n" + body)[..|tag|] == tag
    ensures (tag + "\n" + body)[|tag| + 1..] == body
  {
    LettersLack(tag, '\n');
    IndexOfCharAfterFree(tag, '\n', body);
  }

  /** How `Unfence` proceeds on a part that trims to a text whose first
      line, ending at `nl`, is made of letters. */
  lemma UnfenceTagged(inner: string, nl: nat)
    requires IndexOfChar(inner, '\n') == nl && IsLetters(Trim(inner[..nl]))
    ensures Unfence(inner) == Trim(inner[nl + 1..])
  {
  }

  /** How `StripFence` proceeds on a trimmed, fenced text. */
  lemma StripFenceOuter(s: string, x: string)
    requires Trim(s) == s && StartsWith(s, Fence) && Split(s, Fence) == ["", x, ""]
    ensures StripFence(s) == Unfence(Trim(x))
  {
    assert Split(s, Fence)[1] == x;
  }

  /** The outer layer of a fenced text: it is trimmed, opens with the fence,
      and splits into the enclosed text between two empty parts. */
  lemma FencedOuter(x: string)
    requires Lacks(x, '`')
    ensures Trim(Fence + x + Fence) == Fence + x + Fence
    ensures StartsWith(Fence + x + Fence, Fence)
    ensures Split(Fence + x + Fence, Fence) == ["", x, ""]
  {
    TrimmedFixed(Fence + x + Fence);
    FenceSplit(x);
  }

  /** The inner layer: the enclosed text trims to `tag + "\n" + body`,
      whose first line is the tag and whose remainder trims to the body. */
  lemma TaggedInner(tag: string, body: string)
    requires IsLetters(tag)
    requires |body| > 0 && IsTrimmed(body)
    ensures Trim(tag + "\n" + body + "\n") == tag + "\n" + body
    ensures IndexOfChar(tag + "\n" + body, '\n') == |tag|
    ensures Trim((tag + "\n" + body)[..|tag|]) == tag
    ensures Trim((tag + "\n" + body)[|tag| + 1..]) == body
  {
    InnerTrim(tag, body);
    TagLine(tag, body);
    TrimmedFixed(tag);
    TrimmedFixed(body);
  }

  lemma InnerTrim(tag: string, body: string)
    requires IsLetters(tag)
    requires |body| > 0 && IsTrimmed(body)
    ensures Trim(tag + "\n" + body + "\n") == tag + "\n" + body
  {
    var inner := tag + "\n" + body;
    assert IsTrimmed(inner) by {
      assert inner[0] == tag[0];
      assert inner[|inner| - 1] == body[|body| - 1];
    }
    TrimAround("", inner, "\n");
    assert "" + inner + "\n" == tag + "\n" + body + "\n";
  }

  /** Stripping undoes wrapping a payload in a fence with a language tag. */
  lemma FenceRoundTrip(tag: string, body: string)
    requires IsLetters(tag)
    requires |body| > 0 && IsTrimmed(body) && Lacks(body, '`')
    ensures StripFence(Fence + (tag + "\n" + body + "\n") + Fence) == body
  {
    var inner := tag + "\n" + body;
    var x := inner + "\n";
    LettersLack(tag, '`');
    LacksConcat(tag, "\n", '`');
    LacksConcat(tag + "\n", body, '`');
    LacksConcat(inner, "\n", '`');
    FencedOuter(x);
    TaggedInner(tag, body);
    StripFenceOuter(Fence + x + Fence, x);
    UnfenceTagged(inner, |tag|);
  }

  /** A JSON object wrapped in a tagged fence is recovered through the
      brace span. */
  lemma FencedObjectParsed(tag: string, obj: string, parse: string -> Option<Json>)
    requires IsLetters(tag)
    requires |obj| >= 2 && obj[0] == '{' && obj[|obj| - 1] == '}' && Lacks(obj, '`')
    requires parse(obj).Some?
    ensures ParseJson(Some(JStr(Fence + (tag + "\n" + obj + "\n") + Fence)), parse) == parse(obj)
  {
    var s := Fence + (tag + "\n" + obj + "\n") + Fence;
    FenceRoundTrip(tag, obj);
    assert Attempts(obj)[0] == obj by {
      var span := BraceSpan(obj);
      assert !Lacks(obj, '{') && !Lacks(obj, '}');
      assert span.value.0 == 0;
      assert span.value.1 == |obj| - 1;
      assert obj[0..|obj|] == obj;
    }
    var a := Attempts(obj);
    assert FirstParse(a, parse) == parse(obj);
  }

  /** Prose around an object, starting and ending without whitespace and
      not opening with a backtick, passes the fence stage unchanged. */
  lemma ProseUnfenced(pre: string, obj: string, post: string)
    requires |obj| >= 2 && obj[0] == '{' && obj[|obj| - 1] == '}'
    requires |pre| == 0 || (!IsSpace(pre[0]) && pre[0] != '`')
    requires |post| == 0 || !IsSpace(post[|post| - 1])
    ensures StripFence(pre + obj + post) == pre + obj + post
  {
    var s := pre + obj + post;
    assert IsTrimmed(s) && s[0] != '`' by {
      assert s[0] == if |pre| == 0 then '{' else pre[0];
      assert s[|s| - 1] == if |post| == 0 then '}' else post[|post| - 1];
    }
    TrimmedFixed(s);
    NoFenceStart(s);
  }

  lemma NoFenceStart(s: string)
    requires |s| > 0 && s[0] != '`'
    ensures !StartsWith(s, Fence)
  {
    if |Fence| <= |s| {
      assert s[..|Fence|][0] == s[0];
    }
  }

  /** Braces only in the object make the span exactly the object. */
  lemma ProseSpan(pre: string, obj: string, post: string)
    requires |obj| >= 2 && obj[0] == '{' && obj[|obj| - 1] == '}'
    requires Lacks(pre, '{') && Lacks(post, '}')
    ensures BraceSpan(pre + obj + post) == Some((|pre|, |pre| + |obj| - 1))
    ensures (pre + obj + post)[|pre|..|pre| + |obj|] == obj
  {
    var s := pre + obj + post;
    var span := BraceSpan(s);
    assert s[|pre|] == '{' && s[|pre| + |obj| - 1] == '}';
    assert span.value.0 == |pre| by {
      assert forall k :: 0 <= k < |pre| ==> s[k] == pre[k];
    }
    assert span.value.1 == |pre| + |obj| - 1 by {
      assert forall k :: |pre| + |obj| <= k < |s| ==> s[k] == post[k - |pre| - |obj|];
    }
  }

  /** A JSON object surrounded by prose that has no braces of its own is
      recovered through the brace span. */
  lemma ProseWrappedObjectParsed(pre: string, obj: string, post: string, parse: string -> Option<Json>)
    requires |obj| >= 2 && obj[0] == '{' && obj[|obj| - 1] == '}'
    requires Lacks(pre, '{') && Lacks(post, '}')
    requires |pre| == 0 || (!IsSpace(pre[0]) && pre[0] != '`')
    requires |post| == 0 || !IsSpace(post[|post| - 1])
    requires parse(obj).Some?
    ensures ParseJson(Some(JStr(pre + obj + post)), parse) == parse(obj)
  {
    var s := pre + obj + post;
    ProseUnfenced(pre, obj, post);
    assert Attempts(s)[0] == obj by {
      ProseSpan(pre, obj, post);
    }
    ParsedFirst(s, obj, parse);
  }

  /** A text that needs no fence stripping and whose first attempt parses
      yields that parse. */
  lemma ParsedFirst(s: string, first: string, parse: string -> Option<Json>)
    requires |s| > 0 && StripFence(s) == s && Attempts(s)[0] == first && parse(first).Some?
    ensures ParseJson(Some(JStr(s)), parse) == parse(first)
  {
    var a := Attempts(s);
    assert FirstParse(a, parse) == parse(a[0]);
  }

  // ---------------------------------------------------------------------
  // The line-to-bullets fallback of onGenerateAll

  /** The line cleaning of the fallback: a regex replace that removes one
      leading dash or bullet glyph (`-` or U+2022) together with the
      whitespace after it. */
  function StripGlyph(line: string): string {
    if |line| > 0 && (line[0] == '-' || line[0] == '•') then TrimStart(line[1..]) else line
  }

  function CleanLine(line: string): (r: string)
    ensures IsTrimmed(r)
  {
    Trim(StripGlyph(line))
  }

  function CleanLines(lines: seq<string>): (r: seq<string>)
    ensures |r| == |lines|
    ensures forall i :: 0 <= i < |lines| ==> r[i] == CleanLine(lines[i])
  {
    seq(|lines|, i requires 0 <= i < |lines| => CleanLine(lines[i]))
  }

  /** The bullet texts the fallback derives from plain text: each line loses
      one leading glyph and its surrounding whitespace, and empty lines go.
      Splitting on `"\n"` stands for the source's `/\r?\n/`: a `"\r"` left at
      the end of a line is whitespace that the trim removes. */
  function FallbackTexts(b: string): (r: seq<string>)
    ensures forall i :: 0 <= i < |r| ==> |r[i]| > 0 && IsTrimmed(r[i])
    ensures |r| <= |Split(b, "\n")|
  {
    var cleaned := CleanLines(Split(b, "\n"));
    var r := NonEmpty(cleaned);
    assert forall i :: 0 <= i < |r| ==> IsTrimmed(r[i]) by {
      forall i | 0 <= i < |r| ensures IsTrimmed(r[i]) {
        NonEmptyMembers(cleaned, r[i]);
      }
    }
    r
  }

  /** A text is a fallback bullet exactly when some line cleans to it and it
      is not empty. */
  lemma FallbackTextsMembers(b: string, x: string)
    ensures x in FallbackTexts(b) <==>
      |x| > 0 && exists line :: line in Split(b, "\n") && x == CleanLine(line)
  {
    var lines := Split(b, "\n");
    var cleaned := CleanLines(lines);
    NonEmptyMembers(cleaned, x);
    if x in cleaned {
      var i :| 0 <= i < |cleaned| && cleaned[i] == x;
      assert lines[i] in lines;
    }
    if exists line :: line in lines && x == CleanLine(line) {
      var line :| line in lines && x == CleanLine(line);
      var i :| 0 <= i < |lines| && lines[i] == line;
      assert cleaned[i] == x;
    }
  }

  function TextItem(t: string): Json {
    JObj(map["text" := JStr(t)])
  }

  function TextItems(ts: seq<string>): (r: seq<Json>)
    ensures |r| == |ts| && forall i :: 0 <= i < |ts| ==> r[i] == TextItem(ts[i])
  {
    seq(|ts|, i requires 0 <= i < |ts| => TextItem(ts[i]))
  }

  /** `{ bullets: lines.map(t => ({ text: t })) }`: one `{text}` object per
      fallback line, in order. */
  function FallbackBullets(b: string): (r: Json)
    ensures r.JObj? && r.fields.Keys == {BulletsKey} && r.fields[BulletsKey].JArr?
    ensures |r.fields[BulletsKey].items| == |FallbackTexts(b)|
    ensures forall i :: 0 <= i < |FallbackTexts(b)| ==>
      r.fields[BulletsKey].items[i] == TextItem(FallbackTexts(b)[i])
  {
    JObj(map[BulletsKey := JArr(TextItems(FallbackTexts(b)))])
  }

  predicate IsGlyph(c: char) {
    c == '-' || c == '•'
  }

  /** A plain-text list: each item on its own line behind a glyph and a
      space. */
  function MarkedList(glyphs: seq<char>, items: seq<string>): (r: seq<string>)
    requires |glyphs| == |items|
    ensures |r| == |items|
    ensures forall i :: 0 <= i < |items| ==> r[i] == [glyphs[i]] + " " + items[i]
  {
    seq(|items|, i requires 0 <= i < |items| => [glyphs[i]] + " " + items[i])
  }

  lemma MarkedLine(g: char, item: string)
    requires IsGlyph(g) && |item| > 0 && IsTrimmed(item) && Lacks(item, '\n')
    ensures Lacks([g] + " " + item, '\n')
    ensures CleanLine([g] + " " + item) == item
  {
    var line := [g] + " " + item;
    assert line == [g] + (" " + item);
    LacksConcat(" ", item, '\n');
    LacksConcat([g], " " + item, '\n');
    assert line[1..] == " " + item;
    TrimStartAround(" ", item);
    TrimmedFixed(item);
  }

  /** The fallback reads back the texts of a dash- or bullet-marked list. */
  lemma FallbackReadsBulletList(items: seq<string>, glyphs: seq<char>)
    requires |items| >= 1 && |glyphs| == |items|
    requires forall i :: 0 <= i < |items| ==> |items[i]| > 0 && IsTrimmed(items[i]) && Lacks(items[i], '\n')
    requires forall i :: 0 <= i < |glyphs| ==> IsGlyph(glyphs[i])
    ensures FallbackTexts(Join(MarkedList(glyphs, items), "\n")) == items
  {
    var marked := MarkedList(glyphs, items);
    forall i | 0 <= i < |marked| ensures Lacks(marked[i], '\n') && CleanLine(marked[i]) == items[i] {
      MarkedLine(glyphs[i], items[i]);
    }
    SplitJoin(marked, "\n");
    assert CleanLines(marked) == items;
    NonEmptyKeepsAll(items);
  }

  // ---------------------------------------------------------------------
  // Choosing the parsed value for one task (onGenerateAll)

  /** The fields of a `/draft/run-form` reply that the page reads; each may
      be absent (None) or any JSON value. */
  datatype RunFormResponse = RunFormResponse(outputJson: Option<Json>, output: Option<Json>, bullets: Option<Json>)

  /** `out.output_json ?? null`, with `null` as None. */
  function Nullish(v: Option<Json>): Option<Json> {
    if v.Some? && !v.value.JNull? then v else None
  }

  /** None of `output_json`, a parse of `output` and a parse of `bullets`
      gave a truthy value. */
  predicate NothingParsed(out: RunFormResponse, parse: string -> Option<Json>) {
    && !TruthyOpt(out.outputJson)
    && !TruthyOpt(ParseJson(out.output, parse))
    && !TruthyOpt(ParseJson(out.bullets, parse))
  }

  /** The fallback's own gate: nothing truthy was parsed, `bullets` is a
      string, and its trimmed text starts with neither `{` nor a fence. The
      task being run is not consulted. */
  predicate FallbackApplies(out: RunFormResponse, parse: string -> Option<Json>) {
    && NothingParsed(out, parse)
    && IsStr(out.bullets)
    && !StartsWith(Trim(out.bullets.value.s), "{")
    && !StartsWith(Trim(out.bullets.value.s), Fence)
  }

  /** The value stored as a task's `json`: `output_json`, else a parse of
      `output`, else a parse of `bullets`, else the line fallback. */
  function ResolveParsed(out: RunFormResponse, parse: string -> Option<Json>): (r: Option<Json>)
    ensures TruthyOpt(out.outputJson) ==> r == out.outputJson
    ensures !TruthyOpt(out.outputJson) && TruthyOpt(ParseJson(out.output, parse)) ==>
      r == ParseJson(out.output, parse)
    ensures (!TruthyOpt(out.outputJson) && !TruthyOpt(ParseJson(out.output, parse))
             && TruthyOpt(ParseJson(out.bullets, parse))) ==> r == ParseJson(out.bullets, parse)
    ensures FallbackApplies(out, parse) ==> r == Some(FallbackBullets(out.bullets.value.s))
    ensures NothingParsed(out, parse) && !FallbackApplies(out, parse) ==> !TruthyOpt(r)
  {
    var p0 := Nullish(out.outputJson);
    var p1 := if TruthyOpt(p0) then p0 else ParseJson(out.output, parse);
    var p2 := if TruthyOpt(p1) then p1 else ParseJson(out.bullets, parse);
    if !TruthyOpt(p2) && IsStr(out.bullets) then
      var b := out.bullets.value.s;
      var p3 := ParseJson(out.bullets, parse);
      if !TruthyOpt(p3) && !StartsWith(Trim(b), "{") && !StartsWith(Trim(b), Fence) then
        Some(FallbackBullets(b))
      else p3
    else p2
  }

  datatype TaskResult = TaskResult(json: Option<Json>, raw: string)

  /** The HTTP outcome of one task's request. */
  datatype Reply = Failed(message: string) | Succeeded(out: RunFormResponse)

  /** The result recorded for one task. A failed request keeps its message
      as the raw text; otherwise the raw text is `output` when that is a
      string, else the pretty-printed reply (`stringify`, None where it
      throws). */
  function RecordTask(reply: Reply, parse: string -> Option<Json>, stringify: RunFormResponse -> Option<string>): (r: TaskResult)
    ensures reply.Failed? ==> r == TaskResult(None, reply.message)
    ensures reply.Succeeded? && IsStr(reply.out.output) ==> r.raw == reply.out.output.value.s
    ensures reply.Succeeded? && !IsStr(reply.out.output) && stringify(reply.out).Some? ==> r.raw == stringify(reply.out).value
    ensures reply.Succeeded? && !IsStr(reply.out.output) && stringify(reply.out).None? ==> r.raw == "(no output)"
    ensures reply.Succeeded? ==> r.json == ResolveParsed(reply.out, parse)
  {
    match reply
    case Failed(msg) => TaskResult(None, msg)
    case Succeeded(out) =>
      var raw := if IsStr(out.output) then out.output.value.s
                 else stringify(out).GetOr("(no output)");
      TaskResult(ResolveParsed(out, parse), raw)
  }

  // ---------------------------------------------------------------------
  // formatResult

  predicate IsBulletsShape(j: Json) { TruthyOpt(Get(j, BulletsKey)) }
  predicate IsTalkingShape(j: Json) { TruthyOpt(Get(j, "points")) }
  predicate IsCoverShape(j: Json) { IsStr(Get(j, "subject")) && IsArr(Get(j, "body_paragraphs")) }
  predicate IsAlignShape(j: Json) { IsNum(Get(j, "coverage")) && IsArr(Get(j, "strengths")) }

  /** A result is shown as JSON only when the value it kept is truthy. */
  predicate Kept(r: Option<TaskResult>) {
    r.Some? && TruthyOpt(r.value.json)
  }

  /** The branch of `formatResult` a kept value selects: the first shape
      that matches in the order bullets, talking points, cover letter,
      alignment, and none when no shape matches. */
  datatype Shape = BulletsShape | TalkingShape | CoverShape | AlignShape | OtherShape

  function ShapeOf(j: Json): (s: Shape)
    ensures s == BulletsShape <==> IsBulletsShape(j)
    ensures s == TalkingShape <==> !IsBulletsShape(j) && IsTalkingShape(j)
    ensures s == CoverShape <==> !IsBulletsShape(j) && !IsTalkingShape(j) && IsCoverShape(j)
    ensures s == AlignShape <==>
      !IsBulletsShape(j) && !IsTalkingShape(j) && !IsCoverShape(j) && IsAlignShape(j)
    ensures s == OtherShape <==>
      !IsBulletsShape(j) && !IsTalkingShape(j) && !IsCoverShape(j) && !IsAlignShape(j)
  {
    if IsBulletsShape(j) then BulletsShape
    else if IsTalkingShape(j) then TalkingShape
    else if IsCoverShape(j) then CoverShape
    else if IsAlignShape(j) then AlignShape
    else OtherShape
  }

  /** Reading a property throws only on `null`: a parsed value is never
      `undefined`, and a missing property of any other value reads as
      `undefined` (None). */
  predicate IsNull(v: Json) {
    v.JNull?
  }

  /** `v?.length` is truthy: a non-empty string or array, or an object
      whose own `length` is truthy. */
  predicate LengthTruthy(v: Json) {
    match v
    case JStr(s) => |s| > 0
    case JArr(items) => |items| > 0
    case JObj(_) => TruthyOpt(Get(v, "length"))
    case _ => false
  }

  /** `x?.length ? x.join(",") : …` throws: `x` is present and not null,
      its length is truthy, and it is not an array, so it has no `join`
      method to call. */
  predicate JoinThrows(x: Option<Json>) {
    x.Some? && !x.value.JNull? && !x.value.JArr? && LengthTruthy(x.value)
  }

  /** `v.map(f)` throws: `v` is missing or not an array, so it has no `map`
      method, or `f` throws on one of its elements. */
  predicate MapThrows(v: Option<Json>, throws: Json -> bool) {
    !IsArr(v) || exists i :: 0 <= i < |v.value.items| && throws(v.value.items[i])
  }

  /** A bullet or a strength is rendered from `text` or `requirement`, an
      optional second field and `job_chunks`: this throws when the item is
      null or its `job_chunks` cannot be joined. */
  predicate CitedItemThrows(b: Json) {
    IsNull(b) || JoinThrows(Get(b, "job_chunks"))
  }

  /** `(j.notes ?? []).map(…)` throws: the notes are present, not null and
      not an array. */
  predicate NotesThrow(n: Option<Json>) {
    n.Some? && !n.value.JNull? && !n.value.JArr?
  }

  /** Whether rendering the selected branch throws a `TypeError`. The cover
      letter only reads properties of an object and spreads an array it has
      checked, and pretty-printing a parsed value never throws. */
  predicate RenderThrows(s: Shape, j: Json) {
    match s
    case BulletsShape => MapThrows(Get(j, BulletsKey), CitedItemThrows)
    case TalkingShape => MapThrows(Get(j, "points"), IsNull) || NotesThrow(Get(j, "notes"))
    case CoverShape => false
    case AlignShape =>
      || JoinThrows(Get(j, "missing_keywords"))
      || MapThrows(Get(j, "strengths"), CitedItemThrows)
      || MapThrows(Get(j, "gaps"), IsNull)
    case OtherShape => false
  }

  /** What `formatResult` produces. `Throws` is a `TypeError` escaping it.
      It is called while the page renders, so the error breaks the page. */
  datatype Presentation = Blank | RawText(text: string) | Rendered(shape: Shape) | Throws

  /** `formatResult`: nothing for no result, the raw text when no truthy
      JSON was kept, else the selected branch's rendering, or a throw when
      that branch cannot render the value. The task argument plays no
      part. */
  function FormatBranch(r: Option<TaskResult>): (p: Presentation)
    ensures r.None? <==> p == Blank
    ensures p.RawText? <==> r.Some? && !TruthyOpt(r.value.json)
    ensures p.RawText? ==> p.text == r.value.raw
    ensures p == Throws <==>
      Kept(r) && RenderThrows(ShapeOf(r.value.json.value), r.value.json.value)
    ensures p.Rendered? <==>
      Kept(r) && !RenderThrows(ShapeOf(r.value.json.value), r.value.json.value)
    ensures p.Rendered? ==> p.shape == ShapeOf(r.value.json.value)
  {
    match r
    case None => Blank
    case Some(tr) =>
      if !TruthyOpt(tr.json) then RawText(tr.raw)
      else
        var j := tr.json.value;
        var s := ShapeOf(j);
        if RenderThrows(s, j) then Throws else Rendered(s)
  }

  /** Whatever the fallback yields is shown as bullet lines, even when it
      found no line at all (`{ bullets: [] }` is an object, so truthy). */
  lemma FallbackShownAsBullets(out: RunFormResponse, parse: string -> Option<Json>, raw: string)
    requires FallbackApplies(out, parse)
    ensures FormatBranch(Some(TaskResult(ResolveParsed(out, parse), raw))) == Rendered(BulletsShape)
  {
    var j := FallbackBullets(out.bullets.value.s);
    assert ResolveParsed(out, parse) == Some(j);
    var items := j.fields[BulletsKey].items;
    forall i | 0 <= i < |items|
      ensures !CitedItemThrows(items[i])
    {
      assert items[i] == TextItem(FallbackTexts(out.bullets.value.s)[i]);
    }
    BulletsArrayShown(j, raw);
  }

  /** An object whose `bullets` is an array of items that can each be
      rendered is shown as bullet lines. */
  lemma BulletsArrayShown(j: Json, raw: string)
    requires j.JObj? && BulletsKey in j.fields && j.fields[BulletsKey].JArr?
    requires forall i :: 0 <= i < |j.fields[BulletsKey].items| ==> !CitedItemThrows(j.fields[BulletsKey].items[i])
    ensures FormatBranch(Some(TaskResult(Some(j), raw))) == Rendered(BulletsShape)
  {
    assert Get(j, BulletsKey) == Some(j.fields[BulletsKey]);
    assert IsBulletsShape(j);
    assert Kept(Some(TaskResult(Some(j), raw)));
  }

  /** A JSON object with one property. */
  function Obj1(k: string, v: Json): Json {
    JObj(map[k := v])
  }

  /** A kept value whose branch cannot render it makes `formatResult` throw. */
  lemma ThrowsWhenBranchThrows(j: Json, raw: string)
    requires Truthy(j) && RenderThrows(ShapeOf(j), j)
    ensures FormatBranch(Some(TaskResult(Some(j), raw))) == Throws
  {
  }

  /** A truthy `bullets` that `map` cannot render makes the page throw. */
  lemma BulletsValueThrows(v: Json, raw: string)
    requires Truthy(v) && MapThrows(Some(v), CitedItemThrows)
    ensures FormatBranch(Some(TaskResult(Some(Obj1(BulletsKey, v)), raw))) == Throws
  {
    assert Get(Obj1(BulletsKey, v), BulletsKey) == Some(v);
    ThrowsWhenBranchThrows(Obj1(BulletsKey, v), raw);
  }

  /** `bullets` that is a string, an object, or an array holding `null`
      selects the bullets branch, which then throws. */
  lemma BulletsCrash(raw: string)
    ensures FormatBranch(Some(TaskResult(Some(Obj1(BulletsKey, JStr("x"))), raw))) == Throws
    ensures FormatBranch(Some(TaskResult(Some(Obj1(BulletsKey, JObj(map[]))), raw))) == Throws
    ensures FormatBranch(Some(TaskResult(Some(Obj1(BulletsKey, JArr([JNull]))), raw))) == Throws
  {
    BulletsValueThrows(JStr("x"), raw);
    BulletsValueThrows(JObj(map[]), raw);
    assert CitedItemThrows(JArr([JNull]).items[0]);
    BulletsValueThrows(JArr([JNull]), raw);
  }

  /** `points: true` selects the talking-points branch, which then throws. */
  lemma PointsCrash(raw: string)
    ensures FormatBranch(Some(TaskResult(Some(Obj1("points", JBool(true))), raw))) == Throws
  {
    var t := Obj1("points", JBool(true));
    assert Get(t, BulletsKey) == None && Get(t, "points") == Some(JBool(true));
    ThrowsWhenBranchThrows(t, raw);
  }

  /** An alignment reply without `gaps` selects the alignment branch, which
      then throws on `j.gaps.map`. */
  lemma AlignWithoutGapsCrash(raw: string)
    ensures FormatBranch(Some(TaskResult(Some(
      JObj(map["coverage" := JNum(72.0), "summary" := JStr("ok"), "strengths" := JArr([])])), raw))) == Throws
  {
    var a := JObj(map["coverage" := JNum(72.0), "summary" := JStr("ok"), "strengths" := JArr([])]);
    assert Get(a, BulletsKey) == None && Get(a, "points") == None && Get(a, "subject") == None;
    assert Get(a, "coverage") == Some(JNum(72.0)) && Get(a, "strengths") == Some(JArr([]));
    assert Get(a, "gaps") == None;
    ThrowsWhenBranchThrows(a, raw);
  }

  // ---------------------------------------------------------------------
  // toggleTask

  predicate NoDuplicates<T(==)>(s: seq<T>) {
    forall i, j :: 0 <= i < j < |s| ==> s[i] != s[j]
  }

  /** `prev.filter(x => x !== t)`. */
  function Without(s: seq<Task>, t: Task): (r: seq<Task>)
    ensures forall u :: u in r <==> u in s && u != t
    ensures NoDuplicates(s) ==> NoDuplicates(r)
    ensures |r| <= |s|
    decreases |s|
  {
    if |s| == 0 then []
    else
      var rest := Without(s[1..], t);
      assert NoDuplicates(s) ==> s[0] !in s[1..];
      if s[0] == t then rest else [s[0]] + rest
  }

  /** `toggleTask`: removes a selected task, appends an unselected one. */
  function ToggleTask(selected: seq<Task>, t: Task): (r: seq<Task>)
    ensures t in r <==> t !in selected
    ensures forall u :: u != t ==> (u in r <==> u in selected)
    ensures NoDuplicates(selected) ==> NoDuplicates(r)
    ensures t !in selected ==> r == selected + [t]
  {
    if t in selected then Without(selected, t) else selected + [t]
  }

  /** Toggling the same task twice restores the selection as a set. */
  lemma ToggleTwice(selected: seq<Task>, t: Task)
    ensures forall u :: u in ToggleTask(ToggleTask(selected, t), t) <==> u in selected
  {
  }

  // ---------------------------------------------------------------------
  // The loop of onGenerateAll

  /** How one request of the loop ended: a throw, from `fetch`, from
      `res.json()` or from reading a null reply, carrying the error's
      message if it has one; or an HTTP answer. */
  datatype Attempt = Threw(message: Option<string>) | Answered(reply: Reply)

  /** A task's status line on the page. */
  datatype Phase = Queued | Running | Errored(message: string) | Done

  /** What one click of "generate" leaves on the page: the results per
      task, the status per task, and the error banner. */
  datatype Run = Run(results: map<Task, TaskResult>, phases: map<Task, Phase>, error: Option<string>)

  /** `e?.message || "Network error"`. */
  function ErrorText(m: Option<string>): (r: string)
    ensures |r| > 0
    ensures m.Some? && |m.value| > 0 ==> r == m.value
  {
    if m.Some? && |m.value| > 0 then m.value else "Network error"
  }

  /** The status a task settles in once its request has been answered. */
  function Settled(reply: Reply): Phase {
    if reply.Failed? then Errored(reply.message) else Done
  }

  /** The index of the first request from `k` on that throws, or `|tasks|`
      when none does. */
  function Stop(tasks: seq<Task>, attempts: nat -> Attempt, k: nat): (s: nat)
    requires k <= |tasks|
    ensures k <= s <= |tasks|
    ensures forall i :: k <= i < s ==> attempts(i).Answered?
    ensures s < |tasks| ==> attempts(s).Threw?
    decreases |tasks| - k
  {
    if k == |tasks| || attempts(k).Threw? then k else Stop(tasks, attempts, k + 1)
  }

  /** The i-th entry is the last occurrence of its task before `n`. */
  predicate LastBefore(tasks: seq<Task>, i: nat, n: nat)
    requires i < |tasks| && n <= |tasks|
  {
    forall j :: i < j < n ==> tasks[j] != tasks[i]
  }

  /** The loop from the k-th selected task on. The k-th request is made
      with its task marked running; an answer is stored through `record`
      and the loop goes on, a throw ends the loop with the error banner
      set. */
  function RunFrom(tasks: seq<Task>, k: nat, attempts: nat -> Attempt, run: Run, record: Reply -> TaskResult): Run
    requires k <= |tasks|
    decreases |tasks| - k
  {
    if k == |tasks| then run
    else
      var t := tasks[k];
      match attempts(k)
      case Threw(m) => Run(run.results, run.phases[t := Running], Some(ErrorText(m)))
      case Answered(reply) => RunFrom(tasks, k + 1, attempts, Step(run, t, reply, record), record)
  }

  /** One answered request: its result is stored and its task settles. */
  function Step(run: Run, t: Task, reply: Reply, record: Reply -> TaskResult): Run {
    Run(run.results[t := record(reply)], run.phases[t := Running][t := Settled(reply)], run.error)
  }

  /** `onGenerateAll`: the i-th request of the click ends as `attempts(i)`.
      Results and the banner are cleared and every selected task is queued
      before the two guards run. */
  function GenerateAll(url: string, tasks: seq<Task>, attempts: nat -> Attempt,
                       parse: string -> Option<Json>, stringify: RunFormResponse -> Option<string>): (r: Run)
    ensures |url| == 0 ==> r.error == Some("Enter a job URL first.") && r.results == map[]
    ensures |url| > 0 && |tasks| == 0 ==> r.error == Some("Select at least one task.") && r.results == map[]
  {
    var queued := map t | t in tasks :: Queued;
    if |url| == 0 then Run(map[], queued, Some("Enter a job URL first."))
    else if |tasks| == 0 then Run(map[], queued, Some("Select at least one task."))
    else RunFrom(tasks, 0, attempts, Run(map[], queued, None), reply => RecordTask(reply, parse, stringify))
  }

  /** The banner of the loop: set by the first request that throws, to its
      message or "Network error", and left as it was when none throws. */
  lemma {:induction false} RunFromError(tasks: seq<Task>, k: nat, attempts: nat -> Attempt, run: Run, record: Reply -> TaskResult)
    requires k <= |tasks|
    ensures var r := RunFrom(tasks, k, attempts, run, record);
      var s := Stop(tasks, attempts, k);
      && (s < |tasks| ==> r.error == Some(ErrorText(attempts(s).message)))
      && (s == |tasks| ==> r.error == run.error)
    decreases |tasks| - k
  {
    if k < |tasks| && attempts(k).Answered? {
      RunFromError(tasks, k + 1, attempts, Step(run, tasks[k], attempts(k).reply, record), record);
    }
  }

  /** The tasks that hold a result after the loop: those that held one
      before and those answered before the first throw. */
  lemma {:induction false} RunFromResultDomain(tasks: seq<Task>, k: nat, attempts: nat -> Attempt, run: Run, record: Reply -> TaskResult)
    requires k <= |tasks|
    ensures var r := RunFrom(tasks, k, attempts, run, record);
      forall t :: t in r.results <==> t in run.results || exists i :: k <= i < Stop(tasks, attempts, k) && tasks[i] == t
    decreases |tasks| - k
  {
    var r := RunFrom(tasks, k, attempts, run, record);
    var s := Stop(tasks, attempts, k);
    if k < |tasks| && attempts(k).Answered? {
      var t0 := tasks[k];
      var next := Step(run, t0, attempts(k).reply, record);
      RunFromResultDomain(tasks, k + 1, attempts, next, record);
      assert r == RunFrom(tasks, k + 1, attempts, next, record);
      assert s == Stop(tasks, attempts, k + 1);
      assert next.results == run.results[t0 := record(attempts(k).reply)];
      assert k < s;
      forall t ensures t in r.results <==> t in run.results || exists i :: k <= i < s && tasks[i] == t {
        if t == t0 {
          assert tasks[k] == t && t in next.results;
        } else {
          assert t in next.results <==> t in run.results;
          if exists i :: k <= i < s && tasks[i] == t {
            var i :| k <= i < s && tasks[i] == t;
            assert i != k && k + 1 <= i < s;
          }
          if exists i :: k + 1 <= i < s && tasks[i] == t {
            var i :| k + 1 <= i < s && tasks[i] == t;
            assert k <= i < s;
          }
        }
      }
    }
  }

  /** The results of the loop, by task: a task has one exactly when it had
      one before or was answered before the first throw, and a task not
      answered keeps it. */
  lemma RunFromResultKeys(tasks: seq<Task>, k: nat, attempts: nat -> Attempt, run: Run, record: Reply -> TaskResult)
    requires k <= |tasks|
    ensures var r := RunFrom(tasks, k, attempts, run, record);
      var s := Stop(tasks, attempts, k);
      && (forall t :: t in r.results <==> t in run.results || exists i :: k <= i < s && tasks[i] == t)
      && (forall t :: t in run.results && (forall i :: k <= i < s ==> tasks[i] != t) ==> r.results[t] == run.results[t])
  {
    RunFromResultDomain(tasks, k, attempts, run, record);
    forall t | t in run.results && (forall i :: k <= i < Stop(tasks, attempts, k) ==> tasks[i] != t)
      ensures RunFrom(tasks, k, attempts, run, record).results[t] == run.results[t]
    {
      RunFromKeepsResult(tasks, k, attempts, run, record, t);
    }
  }

  /** A result whose task is not answered again keeps its value. */
  lemma {:induction false} RunFromKeepsResult(tasks: seq<Task>, k: nat, attempts: nat -> Attempt, run: Run, record: Reply -> TaskResult, t: Task)
    requires k <= |tasks| && t in run.results
    requires forall i :: k <= i < Stop(tasks, attempts, k) ==> tasks[i] != t
    ensures var r := RunFrom(tasks, k, attempts, run, record);
      t in r.results && r.results[t] == run.results[t]
    decreases |tasks| - k
  {
    if k < |tasks| && attempts(k).Answered? {
      var next := Step(run, tasks[k], attempts(k).reply, record);
      assert Stop(tasks, attempts, k) == Stop(tasks, attempts, k + 1);
      RunFromKeepsResult(tasks, k + 1, attempts, next, record, t);
    }
  }

  /** The result of one request answered before the first throw, when its
      task is not answered again. */
  lemma {:induction false} RunFromResultAt(tasks: seq<Task>, k: nat, attempts: nat -> Attempt, run: Run, record: Reply -> TaskResult, i: nat)
    requires k <= |tasks| && k <= i < Stop(tasks, attempts, k) && LastBefore(tasks, i, Stop(tasks, attempts, k))
    ensures var r := RunFrom(tasks, k, attempts, run, record);
      tasks[i] in r.results && r.results[tasks[i]] == record(attempts(i).reply)
    decreases |tasks| - k
  {
    var next := Step(run, tasks[k], attempts(k).reply, record);
    assert Stop(tasks, attempts, k) == Stop(tasks, attempts, k + 1);
    if i == k {
      RunFromKeepsResult(tasks, k + 1, attempts, next, record, tasks[k]);
    } else {
      RunFromResultAt(tasks, k + 1, attempts, next, record, i);
    }
  }

  /** The results of the loop, by request: every task answered before the
      first throw holds the result recorded from its last answer. */
  lemma RunFromResults(tasks: seq<Task>, k: nat, attempts: nat -> Attempt, run: Run, record: Reply -> TaskResult)
    requires k <= |tasks|
    ensures var r := RunFrom(tasks, k, attempts, run, record);
      var s := Stop(tasks, attempts, k);
      forall i :: k <= i < s && LastBefore(tasks, i, s) ==>
        tasks[i] in r.results && r.results[tasks[i]] == record(attempts(i).reply)
  {
    forall i | k <= i < Stop(tasks, attempts, k) && LastBefore(tasks, i, Stop(tasks, attempts, k))
      ensures var r := RunFrom(tasks, k, attempts, run, record);
        tasks[i] in r.results && r.results[tasks[i]] == record(attempts(i).reply)
    {
      RunFromResultAt(tasks, k, attempts, run, record, i);
    }
  }

  /** The requests of the loop from `k` on whose task was marked running:
      the answered ones and the one that threw. */
  function Started(tasks: seq<Task>, attempts: nat -> Attempt, k: nat): (v: nat)
    requires k <= |tasks|
    ensures Stop(tasks, attempts, k) <= v <= |tasks|
    ensures v == Stop(tasks, attempts, k) + 1 <==> Stop(tasks, attempts, k) < |tasks|
  {
    var s := Stop(tasks, attempts, k);
    if s < |tasks| then s + 1 else s
  }

  /** The tasks that have a status after the loop: those that had one
      before and those started. */
  lemma {:induction false} RunFromPhaseDomain(tasks: seq<Task>, k: nat, attempts: nat -> Attempt, run: Run, record: Reply -> TaskResult)
    requires k <= |tasks|
    ensures var r := RunFrom(tasks, k, attempts, run, record);
      forall t :: t in r.phases <==> t in run.phases || exists i :: k <= i < Started(tasks, attempts, k) && tasks[i] == t
    decreases |tasks| - k
  {
    var r := RunFrom(tasks, k, attempts, run, record);
    var v := Started(tasks, attempts, k);
    if k < |tasks| {
      var t0 := tasks[k];
      if attempts(k).Answered? {
        var next := Step(run, t0, attempts(k).reply, record);
        RunFromPhaseDomain(tasks, k + 1, attempts, next, record);
        assert r == RunFrom(tasks, k + 1, attempts, next, record);
        assert v == Started(tasks, attempts, k + 1);
        assert next.phases == run.phases[t0 := Running][t0 := Settled(attempts(k).reply)];
        forall t ensures t in r.phases <==> t in run.phases || exists i :: k <= i < v && tasks[i] == t {
          if t == t0 {
            assert tasks[k] == t && t in next.phases;
          } else if exists i :: k <= i < v && tasks[i] == t {
            var i :| k <= i < v && tasks[i] == t;
            assert i != k;
          }
        }
      } else {
        assert r.phases == run.phases[t0 := Running] && v == k + 1;
        forall t ensures t in r.phases <==> t in run.phases || exists i :: k <= i < v && tasks[i] == t {
          if t == t0 {
            assert tasks[k] == t;
          }
        }
      }
    }
  }

  /** A status whose task is not started again is kept. */
  lemma {:induction false} RunFromKeepsPhase(tasks: seq<Task>, k: nat, attempts: nat -> Attempt, run: Run, record: Reply -> TaskResult, t: Task)
    requires k <= |tasks| && t in run.phases
    requires forall i :: k <= i < Started(tasks, attempts, k) ==> tasks[i] != t
    ensures var r := RunFrom(tasks, k, attempts, run, record);
      t in r.phases && r.phases[t] == run.phases[t]
    decreases |tasks| - k
  {
    if k < |tasks| {
      if attempts(k).Answered? {
        var next := Step(run, tasks[k], attempts(k).reply, record);
        assert Started(tasks, attempts, k) == Started(tasks, attempts, k + 1);
        RunFromKeepsPhase(tasks, k + 1, attempts, next, record, t);
      } else {
        assert tasks[k] != t;
      }
    }
  }

  /** The statuses of the loop, by task: a task has one exactly when it had
      one before or was started, and a task not started keeps it. */
  lemma RunFromPhaseKeys(tasks: seq<Task>, k: nat, attempts: nat -> Attempt, run: Run, record: Reply -> TaskResult)
    requires k <= |tasks|
    ensures var r := RunFrom(tasks, k, attempts, run, record);
      var v := Started(tasks, attempts, k);
      && (forall t :: t in r.phases <==> t in run.phases || exists i :: k <= i < v && tasks[i] == t)
      && (forall t :: t in run.phases && (forall i :: k <= i < v ==> tasks[i] != t) ==> r.phases[t] == run.phases[t])
  {
    RunFromPhaseDomain(tasks, k, attempts, run, record);
    forall t | t in run.phases && (forall i :: k <= i < Started(tasks, attempts, k) ==> tasks[i] != t)
      ensures RunFrom(tasks, k, attempts, run, record).phases[t] == run.phases[t]
    {
      RunFromKeepsPhase(tasks, k, attempts, run, record, t);
    }
  }

  /** The statuses of the loop, by request: the task whose request threw is
      left running, and a task answered after its last start settles by
      that answer. */
  lemma {:induction false} RunFromPhases(tasks: seq<Task>, k: nat, attempts: nat -> Attempt, run: Run, record: Reply -> TaskResult)
    requires k <= |tasks|
    ensures var r := RunFrom(tasks, k, attempts, run, record);
      var s := Stop(tasks, attempts, k);
      var v := Started(tasks, attempts, k);
      && (s < |tasks| ==> tasks[s] in r.phases && r.phases[tasks[s]] == Running)
      && (forall i :: k <= i < s && LastBefore(tasks, i, v) ==>
            tasks[i] in r.phases && r.phases[tasks[i]] == Settled(attempts(i).reply))
    decreases |tasks| - k
  {
    var r := RunFrom(tasks, k, attempts, run, record);
    var s := Stop(tasks, attempts, k);
    var v := Started(tasks, attempts, k);
    if k < |tasks| && attempts(k).Answered? {
      var t0 := tasks[k];
      var next := Step(run, t0, attempts(k).reply, record);
      RunFromPhases(tasks, k + 1, attempts, next, record);
      assert r == RunFrom(tasks, k + 1, attempts, next, record);
      assert s == Stop(tasks, attempts, k + 1) && v == Started(tasks, attempts, k + 1);
      forall i | k <= i < s && LastBefore(tasks, i, v)
        ensures tasks[i] in r.phases && r.phases[tasks[i]] == Settled(attempts(i).reply)
      {
        if i == k {
          assert forall j :: k + 1 <= j < v ==> tasks[j] != t0;
          RunFromKeepsPhase(tasks, k + 1, attempts, next, record, t0);
        } else {
          assert LastBefore(tasks, i, v);
        }
      }
    }
  }

  /** One click with a URL and at least one selected task: the banner is
      set iff a request throws, and then shows the first throw's message. */
  lemma GenerateAllError(url: string, tasks: seq<Task>, attempts: nat -> Attempt,
                         parse: string -> Option<Json>, stringify: RunFormResponse -> Option<string>)
    requires |url| > 0 && |tasks| > 0
    ensures var r := GenerateAll(url, tasks, attempts, parse, stringify);
      var s := Stop(tasks, attempts, 0);
      && (r.error.Some? <==> s < |tasks|)
      && (s < |tasks| ==> r.error == Some(ErrorText(attempts(s).message)))
  {
    var record := reply => RecordTask(reply, parse, stringify);
    var run := Run(map[], map t | t in tasks :: Queued, None);
    assert GenerateAll(url, tasks, attempts, parse, stringify) == RunFrom(tasks, 0, attempts, run, record);
    RunFromError(tasks, 0, attempts, run, record);
  }

  /** One click with a URL and at least one selected task: the results are
      exactly those of the requests answered before the first throw, each
      task holding the result of its last answer. */
  lemma GenerateAllResults(url: string, tasks: seq<Task>, attempts: nat -> Attempt,
                           parse: string -> Option<Json>, stringify: RunFormResponse -> Option<string>)
    requires |url| > 0 && |tasks| > 0
    ensures var r := GenerateAll(url, tasks, attempts, parse, stringify);
      var s := Stop(tasks, attempts, 0);
      && (forall t :: t in r.results <==> exists i :: 0 <= i < s && tasks[i] == t)
      && (forall i :: 0 <= i < s && LastBefore(tasks, i, s) ==>
            r.results[tasks[i]] == RecordTask(attempts(i).reply, parse, stringify))
  {
    var record := reply => RecordTask(reply, parse, stringify);
    var run := Run(map[], map t | t in tasks :: Queued, None);
    assert GenerateAll(url, tasks, attempts, parse, stringify) == RunFrom(tasks, 0, attempts, run, record);
    RunFromResultDomain(tasks, 0, attempts, run, record);
    RunFromResults(tasks, 0, attempts, run, record);
  }

  /** One click with a URL and at least one selected task: every selected
      task, and only those, has a status; the task whose request threw is
      left running, a task answered after its last start settles by that
      answer, and a task never started stays queued. */
  lemma GenerateAllPhases(url: string, tasks: seq<Task>, attempts: nat -> Attempt,
                          parse: string -> Option<Json>, stringify: RunFormResponse -> Option<string>)
    requires |url| > 0 && |tasks| > 0
    ensures var r := GenerateAll(url, tasks, attempts, parse, stringify);
      var s := Stop(tasks, attempts, 0);
      var v := Started(tasks, attempts, 0);
      && (forall t :: t in r.phases <==> t in tasks)
      && (s < |tasks| ==> r.phases[tasks[s]] == Running)
      && (forall i :: 0 <= i < s && LastBefore(tasks, i, v) ==> r.phases[tasks[i]] == Settled(attempts(i).reply))
      && (forall t :: t in tasks && (forall i :: 0 <= i < v ==> tasks[i] != t) ==> r.phases[t] == Queued)
  {
    var queued := map t | t in tasks :: Queued;
    var record := reply => RecordTask(reply, parse, stringify);
    var run := Run(map[], queued, None);
    var r := GenerateAll(url, tasks, attempts, parse, stringify);
    var v := Started(tasks, attempts, 0);
    assert r == RunFrom(tasks, 0, attempts, run, record);
    RunFromPhaseDomain(tasks, 0, attempts, run, record);
    forall t ensures t in r.phases <==> t in tasks {
      if exists i :: 0 <= i < v && tasks[i] == t {
        var i :| 0 <= i < v && tasks[i] == t;
        assert tasks[i] in tasks;
      }
    }
    forall t | t in tasks && (forall i :: 0 <= i < v ==> tasks[i] != t)
      ensures r.phases[t] == Queued
    {
      RunFromKeepsPhase(tasks, 0, attempts, run, record, t);
    }
    RunFromPhases(tasks, 0, attempts, run, record);
  }
}
