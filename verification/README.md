# Resume Bender: a verified model of its deterministic core

Resume Bender helps a job seeker tailor a resume to a job posting. It has a
Python API and a Next.js web client. Most of it is React UI, database and
payment calls, and LLM prompting. Between those layers sit small
deterministic functions that decide what the user sees. This project models
those functions in Dafny and proves what they promise.

- **Draft page** (`Draft`): `parseJSON`, which strips a Markdown fence, tries
  the widest `{…}` span and then the whole text. Also the order in which the
  reply fields are consulted, the plain-text line fallback, `formatResult`'s
  choice of presentation, and `toggleTask`.
- **Result views**: the v2-bullet validators and the card-view decision of
  `BulletsView` (`BulletsView`), and the plain-text form and field edits of
  `CoverLetterView` (`CoverLetter`).
- **Text pipeline**: `chunk_text` (`Chunk`), `build_context` (`Context`),
  `rank_chunks_by_keywords` (`Retrieve`), the job-description path cascade
  (`JdFetch`), and the resume upload rules (`Resume`).
- **Scoring**: `ats_match_domain` (`AtsMatch`), `risk_adjust_domain`
  (`RiskAdjust`) and `compute_bender_score` (`BenderScore`).
- **Policies**: the daily free credit top-up (`Credits`) and the
  sliding-window throttle (`RateLimit`). Both are transitions on a state
  that is passed in, with the clock as a parameter.
- **Small deciders**:
  - `use_agentic` (`Flags`);
  - the referral finalisation route, with its cookie and bearer-token
    parsing, attach-once and grant normalisation (`ReferralFinalize`);
  - `isAdminEmail` (`AdminOnly`);
  - the referral card arithmetic (`ReferralCard`);
  - the percent-ring clamp (`PercentRing`).

Some calls leave the program or cannot be seen here. Each becomes a
function-typed parameter:

- `JSON.parse` and `JSON.stringify`;
- `decodeURIComponent`;
- UTF-8 decoding and the PDF reader;
- the HTML extractors and the ISO date parser;
- the user, row and grant lookups of the referral route.

A parameter returns `None` where the original call would throw.

Shared modules:
- `Wrappers` holds `Option`.
- `Json` is the JSON value sum type, with JavaScript truthiness and
  property reads.
- `Text` holds ASCII string helpers: trim, lower-case, search, and
  split/join with their round trips.
- `Lexicographic` holds string order and sorted listings.
- `JsMath` holds `Math.round`, `min` and `max` over reals.

Points worth knowing about the code:

- The draft page's line fallback (`apps/web/src/app/draft/page.tsx:244-256`)
  does not check which task is running. It fires for any task whose
  `bullets` field is a non-JSON-looking string.
- `formatResult` picks its branch from a shallow shape test and then reads
  the value without further checks. Some truthy results make it throw during
  render:
  - a `bullets` that is a string, an object, or an array holding `null`;
  - a `points` that is `true`;
  - an alignment-looking object without `gaps`.
  The model names this outcome `Throws`.
- `ats_match_domain`'s `matched_skills` lists the must-have matches only.
- The finalisation route wraps any truthy non-array grant result in a
  one-element list, not only an object. A non-empty string, `true` or a
  non-zero number is wrapped too.
- `extract_resume` sets `probably_scanned` from the PDF test alone, so an
  empty upload named `.txt` whose content type says PDF is flagged, even
  though it was read as text.

## Model

| member | source | states |
|---|---|---|
| Draft.StripFence | apps/web/src/app/draft/page.tsx:318-332 | a text not opening with a fence is only trimmed; the result is always trimmed |
| Draft.Unfence | apps/web/src/app/draft/page.tsx:325-330 | the fence payload of a trimmed part stays trimmed |
| Draft.UnfenceTagged | apps/web/src/app/draft/page.tsx:326-329 | when the first line is a letters-only language tag, the payload is the trimmed rest after that line |
| Draft.FenceRoundTrip | apps/web/src/app/draft/page.tsx:318-332 | stripping a fence with a letters-only language tag around a trimmed, backtick-free payload returns the payload |
| Draft.BraceSpan | apps/web/src/app/draft/page.tsx:333-335 | no span exactly when `{` or `}` is missing; otherwise the first `{` and the last `}` |
| Draft.Attempts | apps/web/src/app/draft/page.tsx:333-346 | the brace span is tried first when both braces occur, and the whole text is always tried last |
| Draft.FirstParse | apps/web/src/app/draft/page.tsx:337-346 | None exactly when every attempt fails; otherwise the first attempt that parses, with all earlier ones failing |
| Draft.ParseJson | apps/web/src/app/draft/page.tsx:316-347 | a missing, non-string or empty input gives null without any parse; otherwise the first successful attempt on the fence-stripped text |
| Draft.FencedObjectParsed | apps/web/src/app/draft/page.tsx:316-347 | a JSON object inside a tagged fence is recovered by the brace-span parse |
| Draft.ProseWrappedObjectParsed | apps/web/src/app/draft/page.tsx:333-339 | an object surrounded by brace-free prose is recovered by the brace-span parse |
| Draft.FallbackTexts | apps/web/src/app/draft/page.tsx:250-253 | every fallback text is non-empty and trimmed, and there are at most as many as lines |
| Draft.FallbackTextsMembers | apps/web/src/app/draft/page.tsx:250-253 | a text is a fallback bullet iff it is non-empty and some line cleans to it |
| Draft.FallbackBullets | apps/web/src/app/draft/page.tsx:254 | an object whose only key is `bullets`, holding one `{text}` per fallback text, in order |
| Draft.FallbackReadsBulletList | apps/web/src/app/draft/page.tsx:250-254 | a list of dash- or bullet-marked single lines reads back as exactly its item texts |
| Draft.ResolveParsed | apps/web/src/app/draft/page.tsx:240-256 | `output_json` first, then a parse of `output`, then a parse of `bullets`, then the line fallback exactly when its gate holds; otherwise nothing truthy |
| Draft.RecordTask | apps/web/src/app/draft/page.tsx:231-265 | a failed request keeps its message as the raw text and no JSON; otherwise the raw text is `output` when it is a string, else the printed reply, or "(no output)" when the reply cannot be printed; the JSON is the resolved reply |
| Draft.ErrorText | apps/web/src/app/draft/page.tsx:268-269 | the banner text is never empty: the error's message when it has a non-empty one, else "Network error" |
| Draft.Stop | apps/web/src/app/draft/page.tsx:216-269 | the index of the first request that throws, every earlier request answered, or the number of tasks when none throws |
| Draft.GenerateAll | apps/web/src/app/draft/page.tsx:192-212 | without a URL the banner asks for one, and with no task selected it asks for a task; either way no result is kept |
| Draft.RunFromError | apps/web/src/app/draft/page.tsx:216-269 | the loop's banner is the first throw's message, and unchanged when no request throws |
| Draft.RunFromResultDomain | apps/web/src/app/draft/page.tsx:216-265 | after the loop a task holds a result iff it held one before or was answered before the first throw |
| Draft.RunFromKeepsResult | apps/web/src/app/draft/page.tsx:216-265 | a result whose task is not answered again before the first throw keeps its value |
| Draft.RunFromResultAt | apps/web/src/app/draft/page.tsx:231-265 | a request answered before the first throw, whose task is not answered again, leaves that answer's recorded result |
| Draft.RunFromResults | apps/web/src/app/draft/page.tsx:231-265 | every task answered before the first throw holds the result of its last answer |
| Draft.RunFromResultKeys | apps/web/src/app/draft/page.tsx:216-265 | the tasks holding results are the earlier ones plus those answered before the first throw, and the others keep theirs |
| Draft.RunFromPhaseDomain | apps/web/src/app/draft/page.tsx:216-266 | after the loop a task has a status iff it had one before or its request was started |
| Draft.RunFromKeepsPhase | apps/web/src/app/draft/page.tsx:216-266 | a status whose task is not started again keeps its value |
| Draft.RunFromPhaseKeys | apps/web/src/app/draft/page.tsx:216-266 | the tasks with a status are the earlier ones plus those started, and the others keep theirs |
| Draft.RunFromPhases | apps/web/src/app/draft/page.tsx:225-266 | the task whose request threw is left running, and a task answered after its last start is marked done or errored by that answer |
| Draft.GenerateAllError | apps/web/src/app/draft/page.tsx:192-269 | with a URL and a task, the banner is set iff a request throws, and shows the first throw's message |
| Draft.GenerateAllResults | apps/web/src/app/draft/page.tsx:192-265 | with a URL and a task, results exist exactly for the tasks answered before the first throw, each from its last answer |
| Draft.GenerateAllPhases | apps/web/src/app/draft/page.tsx:192-266 | with a URL and a task, exactly the selected tasks have a status; the throwing task stays running, answered tasks settle, and tasks never started stay queued |
| Draft.ShapeOf | apps/web/src/app/draft/page.tsx:281-310 | the first of the bullets, talking, cover and alignment shape tests that holds, else the pretty-print shape, each case iff |
| Draft.FormatBranch | apps/web/src/app/draft/page.tsx:276-313 | blank for no result; the raw text when no truthy JSON was kept; otherwise Throws iff the selected branch cannot read the value, and else that branch's rendering, each case iff |
| Draft.ThrowsWhenBranchThrows | apps/web/src/app/draft/page.tsx:281-307 | a truthy result whose selected branch cannot read it throws during rendering |
| Draft.BulletsValueThrows | apps/web/src/app/draft/page.tsx:281-283 | a truthy `bullets` that is not an array, or that holds an item `map` cannot read, makes rendering throw |
| Draft.BulletsCrash | apps/web/src/app/draft/page.tsx:281-283 | `bullets` set to `"x"`, to `{}` or to `[null]` makes rendering throw |
| Draft.PointsCrash | apps/web/src/app/draft/page.tsx:286-287 | `points: true` makes rendering throw |
| Draft.AlignWithoutGapsCrash | apps/web/src/app/draft/page.tsx:302-306 | an object with `coverage`, `summary` and `strengths` but no `gaps` makes rendering throw |
| Draft.BulletsArrayShown | apps/web/src/app/draft/page.tsx:279-284 | an object whose `bullets` is an array of readable items is rendered as bullet lines |
| Draft.FallbackShownAsBullets | apps/web/src/app/draft/page.tsx:244-283 | whatever the fallback yields is rendered as bullet lines without throwing, even an empty list |
| Draft.Without | apps/web/src/app/draft/page.tsx:108 | the filter keeps exactly the other tasks and creates no duplicates |
| Draft.ToggleTask | apps/web/src/app/draft/page.tsx:106-110 | a toggled task is selected afterwards iff it was not before; other tasks keep their membership; no duplicates arise; an absent task is appended |
| Draft.ToggleTwice | apps/web/src/app/draft/page.tsx:106-110 | toggling the same task twice restores the selection as a set |
| BulletsView.ArrayChecks | apps/web/components/BulletsView.tsx:16-21 | both array checks accept the empty array and reject an array holding an element of the wrong type |
| BulletsView.ValidBullets | apps/web/components/BulletsView.tsx:44 | every kept element is a valid v2 bullet |
| BulletsView.ValidBulletsMembers | apps/web/components/BulletsView.tsx:22-30 | an element is kept iff it is in the list and passes `isV2Bullet` |
| BulletsView.ValidBulletsAppend | apps/web/components/BulletsView.tsx:44 | the filter distributes over concatenation, so it keeps the original order |
| BulletsView.View | apps/web/components/BulletsView.tsx:32-45 | the card view applies iff the data is an object with a `bullets` array, some element carries a v2 hint, and some element is valid; it renders exactly the valid elements, in their original order |
| BulletsView.HintAndValidationIndependent | apps/web/components/BulletsView.tsx:39-45 | an invalid hinted element enables the view while only the valid plain element is rendered |
| BulletsView.CopyLines | apps/web/components/BulletsView.tsx:49 | one "• " line per bullet text |
| BulletsView.CopyAllLines | apps/web/components/BulletsView.tsx:49 | for single-line texts the copied text splits back into one marked line per bullet, each holding its text after the glyph |
| BulletsView.CopyThenFallback | apps/web/components/BulletsView.tsx:49 | pasting the copied text into the draft page's line fallback gives back the same texts |
| CoverLetter.Lines | apps/web/components/CoverLetterView.tsx:13-24 | subject, blank, greeting, blank, each paragraph, blank, valediction, signature: 7 + \|body\| lines |
| CoverLetter.PlainTextLines | apps/web/components/CoverLetterView.tsx:13-24 | with newline-free fields the plain text splits into exactly those 7 + \|body\| lines, the first being the subject |
| CoverLetter.Paragraphs | apps/web/components/CoverLetterView.tsx:98 | no stored paragraph is empty |
| CoverLetter.ParagraphsAreLines | apps/web/components/CoverLetterView.tsx:98 | a stored paragraph is exactly a non-empty line of the edited text |
| CoverLetter.Edit | apps/web/components/CoverLetterView.tsx:78-116 | the edited field takes the input, the body as the non-empty lines of the input (`Paragraphs`, see `ParagraphsAreLines`), and the other four fields are unchanged |
| CoverLetter.BodyRoundTrip | apps/web/components/CoverLetterView.tsx:96-98 | showing non-empty newline-free paragraphs and storing the text back changes nothing |
| Chunk.LastSpace | apps/api/app/utils/chunk.py:24 | -1 or the position of a space in the range, with no space after it in the range |
| Chunk.WindowEnd | apps/api/app/utils/chunk.py:20-26 | the window is non-empty and at most `size` long; it reaches the end iff the hard limit does; a snapped end is the last space of the final 100 characters beyond start + 20 |
| Chunk.Windows | apps/api/app/utils/chunk.py:19-34 | windows are non-empty and at most `size` long, the first starts at 0 and the last reaches the end of the text |
| Chunk.WindowsChain | apps/api/app/utils/chunk.py:31-34 | every window but the last stops short of the end, and the next starts `overlap` before it ends |
| Chunk.NextStartAdvances | apps/api/app/utils/chunk.py:34 | the next window starts strictly after this one's start and inside the text |
| Chunk.Pieces | apps/api/app/utils/chunk.py:28-30 | one piece per window, the window's text stripped |
| Chunk.WindowsCover | apps/api/app/utils/chunk.py:19-34 | every character of the text lies in some window |
| Chunk.ChunkText | apps/api/app/utils/chunk.py:4-36 | every chunk is non-empty and at most `size` characters |
| Chunk.ChunkTextEmpty | apps/api/app/utils/chunk.py:10-12 | no chunks iff the text is missing or whitespace only |
| Chunk.ChunkTextShort | apps/api/app/utils/chunk.py:19-33 | a stripped text of at most `size` characters is exactly one chunk, that text |
| Chunk.DefaultsAdvance | apps/api/app/utils/chunk.py:4 | the default size and overlap satisfy the progress condition |
| Context.Head | apps/api/app/utils/context.py:25 | the piece is a prefix of the chunk, no longer than the remaining budget, and cut only at the budget |
| Context.Select | apps/api/app/utils/context.py:17-30 | at most `max_chunks` non-empty pieces within the budget, the j-th a prefix of chunk j and all but the last whole, and a cut-short last piece uses up the budget exactly (`ch[:remaining]`); an early stop has one of the three reasons |
| Context.BuildContext | apps/api/app/utils/context.py:4-34 | citation j names chunk j; only the last piece can be short, and when it is the cited lengths add up to exactly `max_chars`; nothing is selected at or after an empty chunk |
| Context.Citations | apps/api/app/utils/context.py:33 | citation j is `{chunk_index: j, length: len(piece_j)}` |
| Context.Entries | apps/api/app/utils/context.py:32 | entry j is the piece labelled `[j] ` |
| Context.CitedPieces | apps/api/app/utils/context.py:25-33 | the named piece j is the prefix of chunk j of the cited length |
| Context.ContextMatchesCitations | apps/api/app/utils/context.py:17-34 | the context is exactly the `[j] `-labelled pieces named by the citations, joined by blank lines |
| Context.CitedLengthMatches | apps/api/app/utils/context.py:33 | the cited lengths add up to the total length of the pieces |
| Context.BudgetKept | apps/api/app/utils/context.py:21-30 | the cited lengths add up to at most `max_chars` |
| Context.StopsForAReason | apps/api/app/utils/context.py:17-27 | selection stops early only when the slots are used up, the budget is spent, or the next chunk is empty |
| Context.ContextStart | apps/api/app/utils/context.py:32 | the context is empty iff nothing was selected, and otherwise starts with "[0] " |
| Context.EntriesStart | apps/api/app/utils/context.py:32 | the labelled pieces joined by blank lines are empty iff there are no pieces, and otherwise open with the label "[0] " |
| Retrieve.Tokens | apps/api/app/utils/retrieve.py:7-8 | every token is a non-empty run of word characters |
| Retrieve.TokensOfWords | apps/api/app/utils/retrieve.py:7-8 | tokenising space-separated lower-case words gives back the words |
| Retrieve.CountPositive | apps/api/app/utils/retrieve.py:28 | a token's count is positive iff it occurs |
| Retrieve.ScorePositive | apps/api/app/utils/retrieve.py:24-29 | a chunk's score is positive iff it shares a token with the query |
| Retrieve.Sort | apps/api/app/utils/retrieve.py:32 | the indices are strictly ordered by score descending, then index ascending, with the same members |
| Retrieve.Insert | apps/api/app/utils/retrieve.py:32 | inserting an index into an ordered listing keeps it ordered and adds exactly that index |
| Retrieve.Positives | apps/api/app/utils/retrieve.py:34 | exactly the positive-score indices, order kept |
| Retrieve.SliceTo | apps/api/app/utils/retrieve.py:34 | Python's `[:k]`, a prefix with negative `k` counting from the end |
| Retrieve.Rank | apps/api/app/utils/retrieve.py:10-39 | distinct indices below `len(chunks)`, at most `top_k` of them; exactly min(len, top_k) of them with no query token or no matching chunk, otherwise the first `top_k` of the matching chunks (Python's slice for a negative `top_k`), falling back to the leading indices only when that slice is empty |
| Retrieve.DistinctCard | apps/api/app/utils/retrieve.py:34 | a list without duplicates has as many members as elements |
| Retrieve.PositivesCount | apps/api/app/utils/retrieve.py:32-34 | the positive-score candidates, after sorting, are exactly the matching chunks, each once |
| Retrieve.RankedCount | apps/api/app/utils/retrieve.py:34 | the ranked list holds min(top_k, number of matching chunks) indices, or Python's count for a negative `top_k` |
| Retrieve.RankFallback | apps/api/app/utils/retrieve.py:16-18 | with no query token or no matching chunk the result is the first min(len, top_k) indices |
| Retrieve.Ranked | apps/api/app/utils/retrieve.py:34 | an ordered listing of positive-score indices |
| Retrieve.RankedBest | apps/api/app/utils/retrieve.py:32-34 | with a positive chunk and a positive `top_k` the list is non-empty, and every omitted positive chunk ranks after every returned one |
| Retrieve.RankMatches | apps/api/app/utils/retrieve.py:32-36 | with a match, exactly min(top_k, number of matching chunks) positive chunks are returned, best first with ties by index, and no omitted match outranks a returned one |
| JdFetch.LooksJsPlaceholder | apps/api/app/utils/jd_fetch.py:6-10 | true iff the lower-cased text (None as "") contains one of the four markers |
| JdFetch.PlaceholderInContext | apps/api/app/utils/jd_fetch.py:8-10 | a marker stays detected whatever text surrounds it |
| JdFetch.PlaceholderIgnoresCase | apps/api/app/utils/jd_fetch.py:9 | the test ignores letter case |
| JdFetch.FetchJdText | apps/api/app/utils/jd_fetch.py:60-87 | each path is reported exactly under its condition, and each path's text is the one the source returns |
| JdFetch.NoRenderWithoutPermission | apps/api/app/utils/jd_fetch.py:77-84 | without `allow_render` the rendered path never occurs and the rendered page is ignored |
| JdFetch.ChosenTextIsUsable | apps/api/app/utils/jd_fetch.py:68-82 | an article path's text has at least 500 characters and is no placeholder; a meta text has at least 120 |
| JdFetch.BestEffortEmpty | apps/api/app/utils/jd_fetch.py:87 | the last resort is empty only when every candidate in turn is blank |
| Resume.Words | apps/api/app/routers/resume.py:42 | every word is a non-empty run without whitespace |
| Resume.Collapse | apps/api/app/routers/resume.py:42 | the collapsed text is single-spaced and has exactly the words of the input |
| Resume.JoinSingleSpaced | apps/api/app/routers/resume.py:42 | joining whitespace-free words with single spaces gives a single-spaced text |
| Resume.CollapseSpec | apps/api/app/routers/resume.py:42 | the collapsed text is single-spaced, keeps the words, and collapsing twice changes nothing |
| Resume.SingleSpacedTrimmed | apps/api/app/routers/resume.py:58 | a collapsed text has no leading or trailing whitespace |
| Resume.ContentType | apps/api/app/routers/resume.py:20 | the content type is trimmed and has no capital letters, is no longer than the header, and is "" when the header is missing |
| Resume.ContentTypeIdempotent | apps/api/app/routers/resume.py:20 | normalising a normalised content type changes nothing |
| Resume.IsText | apps/api/app/routers/resume.py:32 | a content type starting with "text/plain" or a name ending in ".txt" is enough alone; otherwise text iff the type contains "text/plain"; too short a type and name are never text |
| Resume.IsPdf | apps/api/app/routers/resume.py:33 | the `%PDF` magic, a ".pdf" name or an "application/pdf" type is each enough alone; otherwise PDF iff the type contains "pdf" |
| Resume.Status | apps/api/app/routers/resume.py:16-62 | 200 iff a summary is returned, 413 iff too large, 400 iff the PDF or one of its pages cannot be read, 415 iff unsupported |
| Resume.PageTexts | apps/api/app/routers/resume.py:50-56 | when every page reads, entry i is page i's text ("" when it has none); otherwise the 1-based number of the first page that fails |
| Resume.ReadPages | apps/api/app/routers/resume.py:8 | at most 20 pages, a prefix of the document |
| Resume.PagesAfterLimitIgnored | apps/api/app/routers/resume.py:50 | pages after the twentieth are never read, even when they would fail |
| Resume.Preview | apps/api/app/routers/resume.py:65 | the first 600 characters |
| Resume.DocumentText | apps/api/app/routers/resume.py:40-58 | the text is single-spaced; a text file always succeeds with the words of the decoded file; a PDF fails with 0 iff it cannot be opened, fails with the first unreadable page's number, and otherwise has the words of the read pages' texts joined by blank lines |
| Resume.JoinedPagesWords | apps/api/app/routers/resume.py:57-58 | the words of the pages joined by blank lines are the pages' words, page after page |
| Resume.PdfWords | apps/api/app/routers/resume.py:46-58 | a PDF whose pages all read has the words of its first 20 pages' texts, in page order |
| Text.RunsAppendGap | apps/api/app/routers/resume.py:57-58 | a whitespace gap between two texts splits their words apart: the words of the whole are the words of the first followed by those of the second |
| Text.RunsAtAppendGap | apps/api/app/routers/resume.py:57-58 | the same for a first text that opens with a word character |
| Resume.ExtractResume | apps/api/app/routers/resume.py:13-79 | 413 iff the upload exceeds 5 MiB; 415 iff it is neither text nor PDF; a summary echoes name, type, size and head preview |
| Resume.SummaryOfText | apps/api/app/routers/resume.py:64-66 | preview, length and the scan flag are taken from the document text; the flag is set iff the file looks like a PDF and the text is empty |
| Resume.TextBeforePdf | apps/api/app/routers/resume.py:40-43 | a text file is decoded and never handed to the PDF reader |
| AtsMatch.NormalizeOne | apps/api/app/agents/domain/ats_match.py:12-14 | a kept entry is non-empty, trimmed and lower-case |
| AtsMatch.NormalizeSkills | apps/api/app/agents/domain/ats_match.py:9-15 | a sorted listing of exactly the normalised names of the string entries |
| AtsMatch.NormalizedAreSkills | apps/api/app/agents/domain/ats_match.py:9-15 | every normalised name is non-empty, trimmed and lower-case |
| AtsMatch.NormalizeOneFixed | apps/api/app/agents/domain/ats_match.py:12-14 | a name already in normal form is kept as it is |
| AtsMatch.NormalizeIdempotent | apps/api/app/agents/domain/ats_match.py:9-15 | a sorted list of normal-form names normalises to itself |
| AtsMatch.NormalizeTwice | apps/api/app/agents/domain/ats_match.py:9-15 | normalising the normalised set again changes nothing |
| AtsMatch.Intersect | apps/api/app/agents/domain/ats_match.py:41-42 | a sorted list of exactly the names in both sets |
| AtsMatch.Minus | apps/api/app/agents/domain/ats_match.py:44-47 | a sorted list of exactly the names of the first set missing from the second |
| AtsMatch.IntersectMinusSplit | apps/api/app/agents/domain/ats_match.py:41-45 | matched and missing together count the whole category |
| AtsMatch.Coverage | apps/api/app/agents/domain/ats_match.py:52-61 | the ratio lies in [0, 1]; a named category fully matched is 1 and unmatched is 0 |
| AtsMatch.Clamp01 | apps/api/app/agents/domain/ats_match.py:81 | the result lies in [0, 1] and equals an input already there |
| AtsMatch.CombinedInRange | apps/api/app/agents/domain/ats_match.py:65-79 | coverages in [0, 1] combine to a score in [0, 1] |
| AtsMatch.Match | apps/api/app/agents/domain/ats_match.py:18-127 | the score lies in [0, 1] and every returned list is sorted |
| AtsMatch.MatchSets | apps/api/app/agents/domain/ats_match.py:41-47 | matched and missing must-haves partition the must-haves; missing nice-to-haves and extras are the stated differences; matched skills are must-have matches only |
| AtsMatch.MatchScore | apps/api/app/agents/domain/ats_match.py:65-81 | 0.5 with no skills named, the one category's coverage, or 0.7·must + 0.3·nice, never altered by the clamp |
| AtsMatch.FullCoverage | apps/api/app/agents/domain/ats_match.py:52-81 | a resume holding every named skill scores 1.0 |
| AtsMatch.ExplanationOpens | apps/api/app/agents/domain/ats_match.py:87-94 | the explanation opens with the must-have sentence |
| RiskAdjust.MissingPenalty | apps/api/app/agents/domain/risk_adjust.py:53 | for k ≥ 1 the penalty lies in [0.15, 0.3] and reaches 0.3 iff k ≥ 4 |
| RiskAdjust.RawScore | apps/api/app/agents/domain/risk_adjust.py:26-122 | the score before the clamp lies in [-0.2, 1.0]: the five rules deduct at most 0.3, 0.3, 0.2, 0.25 and 0.15 |
| RiskAdjust.Factors | apps/api/app/agents/domain/risk_adjust.py:28-122 | at most five factors, all with negative weights, at most one per rule and in the order the rules run |
| RiskAdjust.Adjust | apps/api/app/agents/domain/risk_adjust.py:10-143 | the score lies in [0, 1]; the explanation has the no-factor wording iff there are no factors, else it lists the descriptions |
| RiskAdjust.RuleWeights | apps/api/app/agents/domain/risk_adjust.py:30-122 | each rule's recorded weights add up to minus the amount it deducts, and are all negative |
| RiskAdjust.RawScoreIsWeightSum | apps/api/app/agents/domain/risk_adjust.py:26-122 | the raw score is 1 plus the sum of the recorded weights, and every recorded weight is negative |
| RiskAdjust.ScoreIsClampedSum | apps/api/app/agents/domain/risk_adjust.py:125 | the reported score is clamp(1 + Σ weights) |
| RiskAdjust.NoFactorsFullScore | apps/api/app/agents/domain/risk_adjust.py:26 | without factors the score is 1.0 |
| RiskAdjust.Descriptions | apps/api/app/agents/domain/risk_adjust.py:129 | the factors' descriptions, in order |
| RiskAdjust.FactorKeys | apps/api/app/agents/domain/risk_adjust.py:30-122 | each factor key is recorded once when its condition holds and never otherwise |
| RiskAdjust.OneFactorPerBand | apps/api/app/agents/domain/risk_adjust.py:30-88 | one ATS factor iff the ATS score is below 0.5, one experience factor iff under 3 years, never two of either |
| RiskAdjust.SeniorRoleMeaning | apps/api/app/agents/domain/risk_adjust.py:106-109 | a title is senior iff, lower-cased, it contains senior, staff, principal or lead |
| RiskAdjust.SeniorFactorWhen | apps/api/app/agents/domain/risk_adjust.py:106-122 | the seniority factor appears iff the title is senior and experience is under 3 years |
| RiskAdjust.MissingYearsAsZero | apps/api/app/agents/domain/risk_adjust.py:68 | a missing experience figure gives the same result as 0 years |
| BenderScore.ClampScale | apps/api/app/agents/bender_score.py:46 | the result lies in [0, 100] and equals an input already there |
| BenderScore.Score | apps/api/app/agents/bender_score.py:38-46 | the score lies in [0, 100] |
| BenderScore.WeightsSumToOne | apps/api/app/agents/bender_score.py:39-44 | the six weights add up to 1 |
| BenderScore.UniformScore | apps/api/app/agents/bender_score.py:38-46 | six equal sub-scores on the scale give that score |
| BenderScore.NoClampInScale | apps/api/app/agents/bender_score.py:38-46 | with all sub-scores on the scale the score is the exact weighted sum |
| BenderScore.Monotone | apps/api/app/agents/bender_score.py:38-46 | raising any sub-score never lowers the score |
| Credits.PlanName | apps/api/app/utils/credits.py:18 | the plan name is never empty and has no capitals; a missing or empty plan is "free"; a given plan keeps its length |
| Credits.LastRefill | apps/api/app/utils/credits.py:21-38 | a refill date comes only from a present, non-empty stamp that parses; a missing or empty stamp gives none |
| Credits.ToppedUp | apps/api/app/utils/credits.py:45 | the new balance is the capped sum: at most the cap and at most remaining + daily, and equal to one of them |
| Credits.TopUp | apps/api/app/utils/credits.py:9-55 | unlimited or non-free plans, balances at the cap and users refilled today are kept; a refill happens iff none of these holds and the balance changes |
| Credits.Apply | apps/api/app/utils/credits.py:46-51 | the stamp is written only with a refill; plan and unlimited flag are untouched |
| Credits.NeverDecreases | apps/api/app/utils/credits.py:13-45 | with a non-negative daily grant the balance never goes down and never passes the cap unless it already had |
| Credits.UnparseableIsNever | apps/api/app/utils/credits.py:32-38 | an unparseable refill stamp counts as no refill |
| Credits.OncePerDay | apps/api/app/utils/credits.py:40-51 | after a refill stamped today, a second call the same day keeps the balance |
| Credits.DefaultGrant | apps/api/app/utils/credits.py:6-7 | with the defaults a free user under 20 not refilled today gains min(3, 20 − balance) |
| RateLimit.Trunc | apps/api/app/utils/rate_limit.py:27 | Python's `int()` truncates toward zero |
| RateLimit.Evict | apps/api/app/utils/rate_limit.py:21-23 | a suffix of the queue whose oldest time is not before the cutoff; every dropped time was before it |
| RateLimit.Admit | apps/api/app/utils/rate_limit.py:25-31 | allowed iff fewer than `limit` times remain; when allowed, `now` is appended and the wait is 0; when denied, the queue is unchanged and the wait is at least 1 |
| RateLimit.RetryAfterMeaning | apps/api/app/utils/rate_limit.py:27 | a refusal's wait is max(1, the truncated seconds until the oldest time leaves the window) |
| RateLimit.Throttle | apps/api/app/utils/rate_limit.py:9-31 | only the key's queue changes, created when missing; every other key keeps its queue |
| RateLimit.EvictAscending | apps/api/app/utils/rate_limit.py:21-23 | eviction keeps an ascending queue ascending and leaves nothing before the cutoff |
| RateLimit.QueueStep | apps/api/app/utils/rate_limit.py:20-31 | one evict-and-admit step keeps a queue ascending, within the limit and not ahead of the clock |
| RateLimit.PositiveLimitSucceeds | apps/api/app/utils/rate_limit.py:25-27 | with a positive limit the call never reaches the failing `q[0]` |
| RateLimit.ThrottleKeepsValid | apps/api/app/utils/rate_limit.py:20-31 | with a fixed positive limit and a clock that does not go back, queues stay ascending, no longer than the limit and not ahead of the clock; the key's queue has nothing older than the window |
| Flags.UseAgentic | apps/api/app/core/flags.py:8-15 | a present query parameter decides alone (true iff "1"), then a present header (true iff "1"), else the setting |
| Flags.QueryDecides | apps/api/app/core/flags.py:8-10 | the header and the setting do not matter once the query parameter is present |
| Flags.OnlyOneSwitchesOn | apps/api/app/core/flags.py:10-13 | any deciding value other than exactly "1" gives false |
| ReferralFinalize.CookieParts | apps/web/src/app/api/referrals/finalize/route.ts:34-35 | at least one part, and no part after the first starts with whitespace |
| ReferralFinalize.PairParts | apps/web/src/app/api/referrals/finalize/route.ts:36-37 | a pair splits at its first "=", keeping later "=" characters in the value |
| ReferralFinalize.BarePart | apps/web/src/app/api/referrals/finalize/route.ts:36-37 | a part without "=" is all key with an empty value |
| ReferralFinalize.Find | apps/web/src/app/api/referrals/finalize/route.ts:35-39 | a found value belongs to a part whose decoded key is the name; null iff every key decodes to another name |
| ReferralFinalize.FirstMatchWins | apps/web/src/app/api/referrals/finalize/route.ts:35-37 | the first part whose key decodes to the name gives its undecoded value |
| ReferralFinalize.UndecidedShift | apps/web/src/app/api/referrals/finalize/route.ts:35-38 | with the first part undecided, undecided before i+1 in the parts is undecided before i in the rest |
| ReferralFinalize.FailureThrows | apps/web/src/app/api/referrals/finalize/route.ts:35-37 | a key that fails to decode, with every earlier key decoding to another name, makes the lookup throw |
| ReferralFinalize.ThrowHasFailure | apps/web/src/app/api/referrals/finalize/route.ts:35-37 | a lookup that throws does so at an undecodable key reached before any match |
| ReferralFinalize.FindThrows | apps/web/src/app/api/referrals/finalize/route.ts:35-37 | the lookup throws iff some key fails to decode before any key decodes to the name |
| ReferralFinalize.GetCookieReads | apps/web/src/app/api/referrals/finalize/route.ts:33-40 | reading a cookie from the header (missing reads as ""): a value comes from a part whose key decodes to the name, and the first such part wins when every earlier key decodes; null iff every key decodes to another name; a throw iff a key fails to decode before any match |
| ReferralFinalize.NoHeaderNoCookie | apps/web/src/app/api/referrals/finalize/route.ts:34 | a missing header reads as "" and finds no non-empty name |
| ReferralFinalize.CookiePartsOfHeader | apps/web/src/app/api/referrals/finalize/route.ts:35 | a header of well-formed pairs joined by "; " splits back into the pairs |
| ReferralFinalize.ReadsBackCookie | apps/web/src/app/api/referrals/finalize/route.ts:33-40 | a cookie sent as `name=value` in such a header is read back whole |
| ReferralFinalize.BearerToken | apps/web/src/app/api/referrals/finalize/route.ts:54-55 | a token iff the header starts with "Bearer ", and the header is then the prefix plus the token |
| ReferralFinalize.BearerRoundTrip | apps/web/src/app/api/referrals/finalize/route.ts:55 | the prefix has 7 characters and a prefixed token is read back |
| ReferralFinalize.Attach | apps/web/src/app/api/referrals/finalize/route.ts:81-87 | a row with a user is unchanged; a row without one gets the user and the time; the id is kept |
| ReferralFinalize.AttachOnce | apps/web/src/app/api/referrals/finalize/route.ts:81-87 | a second attach by anyone at any time leaves the row as the first left it |
| ReferralFinalize.NormalizeGrants | apps/web/src/app/api/referrals/finalize/route.ts:94-98 | an array is kept, another truthy value is wrapped, a falsy value gives [] |
| ReferralFinalize.NormalizeGrantsIdempotent | apps/web/src/app/api/referrals/finalize/route.ts:94-98 | normalising a normalised list again changes nothing |
| ReferralFinalize.Grants | apps/web/src/app/api/referrals/finalize/route.ts:90-102 | no grants unless rewards are enabled with exactly "true" and the procedure returns |
| ReferralFinalize.Post | apps/web/src/app/api/referrals/finalize/route.ts:42-111 | the request fails iff reading the cookie throws; a row is written only on the finalized path (each refusal is stated by the lemmas below) |
| ReferralFinalize.PostAttaches | apps/web/src/app/api/referrals/finalize/route.ts:64-102 | a request that reaches the row is finalized, and writes the attached row iff the row has no user yet |
| ReferralFinalize.FinalizeOnce | apps/web/src/app/api/referrals/finalize/route.ts:81-87 | when the second request finds the row the first one wrote, it writes nothing |
| ReferralFinalize.Status | apps/web/src/app/api/referrals/finalize/route.ts:42-111 | 200 exactly for the no-cookie, no-click and finalized replies; 401 exactly for the missing token and the unknown user |
| ReferralFinalize.ClearsCookie | apps/web/src/app/api/referrals/finalize/route.ts:44-109 | the cookie is expired exactly on the no-cookie, no-click and finalized replies |
| ReferralFinalize.NoCookieFirst | apps/web/src/app/api/referrals/finalize/route.ts:44-52 | without the cookie the route answers at once and clears the cookie |
| ReferralFinalize.EmptyCookieIsNoCookie | apps/web/src/app/api/referrals/finalize/route.ts:44-52 | an empty cookie value is answered as no cookie, clears the cookie and writes nothing |
| ReferralFinalize.TokenRequired | apps/web/src/app/api/referrals/finalize/route.ts:54-56 | a cookie with no bearer token, or `Bearer ` followed by nothing, gets 401 `no_user_token` and writes nothing |
| ReferralFinalize.UserRequired | apps/web/src/app/api/referrals/finalize/route.ts:58-62 | a token that names no user gets 401 `no_user` and writes nothing |
| ReferralFinalize.UnknownClick | apps/web/src/app/api/referrals/finalize/route.ts:64-79 | a signed-in request whose click has no row, or whose lookup fails, answers `no_click` with 200, clears the cookie and writes nothing |
| AdminOnly.IsAdminEmail | apps/web/src/lib/adminOnly.ts:1-3 | false for a missing or empty email or setting; true iff both are given and agree up to letter case |
| AdminOnly.AdminIgnoresCase | apps/web/src/lib/adminOnly.ts:3 | the answer does not depend on the letter case of the email |
| AdminOnly.SettingIsAdmin | apps/web/src/lib/adminOnly.ts:2-3 | the setting itself is an administrator address |
| ReferralCard.Progress | apps/web/components/ReferralCardView.tsx:34 | at most 100, non-negative for a non-negative count, the share rounded to the nearest percent below 100, and 100 iff the share is at least 99.5 |
| ReferralCard.Remaining | apps/web/components/ReferralCardView.tsx:79 | never negative; 0 iff the goal is reached; otherwise exactly what is missing |
| ReferralCard.View | apps/web/components/ReferralCardView.tsx:33-101 | the bar width is `Progress` of the count and goal, the "N more" count is `Remaining` of them, and the locked label appears iff Premium is inactive, showing that same count |
| ReferralCard.ViewAtGoal | apps/web/components/ReferralCardView.tsx:33-101 | at or past the goal the card shows 100%, 0 more, and a locked label of 0 when Premium is inactive |
| ReferralCard.GoalAtLeastOne | apps/web/components/ReferralCardView.tsx:34 | a goal of at most one behaves like a goal of one |
| ReferralCard.GoalReached | apps/web/components/ReferralCardView.tsx:34-79 | reaching a goal of at least one gives 100 percent and 0 remaining |
| ReferralCard.ProgressMonotone | apps/web/components/ReferralCardView.tsx:34 | more referrals never shorten the bar |
| ReferralCard.NoLowerClamp | apps/web/components/ReferralCardView.tsx:34 | a negative count gives a negative width |
| JsMath.Round | apps/web/components/PercentRing.tsx:11 | `Math.round` gives the integer within half a unit, halves rounded up |
| JsMath.RoundMonotone | apps/web/components/PercentRing.tsx:11 | rounding keeps the order of two numbers |
| PercentRing.Percent | apps/web/components/PercentRing.tsx:11 | an integer in [0, 100], within half a unit of the value inside the range, 100 iff value ≥ 99.5 and 0 iff value < 0.5 |
| PercentRing.PercentEnds | apps/web/components/PercentRing.tsx:11 | a value of at least 100 shows 100, and one of at most 0 shows 0 |
| PercentRing.PercentFixesWhole | apps/web/components/PercentRing.tsx:11 | a whole number in [0, 100] is shown unchanged |
| PercentRing.PercentMonotone | apps/web/components/PercentRing.tsx:11 | the percentage is non-decreasing in the value |
| PercentRing.PercentIdempotent | apps/web/components/PercentRing.tsx:11 | clamping twice is clamping once |
| PercentRing.AlignmentRingShows | apps/web/components/AlignmentView.tsx:23 | the alignment view's pre-clamp does not change what the ring shows |

## Left out

- JSX rendering, React state and hooks, Next.js routing, theming and the
  ring's SVG geometry are UI. They carry no contract beyond the functions
  modelled.
- `formatResult`'s text for each presentation is left out. That text is
  string templating, plus `JSON.stringify` for the pretty-printed case.
  Only the choice of presentation is modelled. The cover-letter lines are
  the same as `CoverLetter.Lines`.
- Draft.FormatBranch: a value that reaches a template literal or `.join`
  in `formatResult` is converted to text (page.tsx:283, 287, 298, 304-306).
  A JSON value is never a function, so any object with its own `toString`
  key makes that conversion throw, because the inherited `valueOf` returns
  the object itself. An array holding such an object throws the same way.
  This covers `text`, `job_chunks`, `missing_keywords`, `body_paragraphs`
  and the other fields printed. The model does not treat this as a throw.
- Draft.RecordTask: the reply carries only the three fields the page reads.
  `stringify` stands for `JSON.stringify` of the whole reply, including
  fields the model does not carry.
- Draft.GenerateAll: each request's outcome is the parameter `attempts`. The
  form fields sent with it are not modelled, and neither is the text of a
  failed reply (`res.text()`, or "Generate failed" with the status).
- Network and database I/O is passed in as values:
  - the fetched pages and extracted texts of the job-description cascade;
  - the stored user summary, the refill stamp and the clock of the credit
    top-up;
  - the user, row and grant lookups of the referral route.
- The database echo of the new balance is left out. After a refill the
  source returns the stored value, or the computed one when that read
  fails; the model returns the computed balance.
- LLM calls are left out because their output is non-deterministic and the
  library code is not visible. This covers the agent wiring around
  `compute_bender_score`.
- Foreign functions are uninterpreted parameters: `JSON.parse`,
  `JSON.stringify`, `decodeURIComponent`, UTF-8 decoding, the PDF reader,
  the HTML extractors and `datetime.fromisoformat`.
- Whitespace, letter case and `\w` are ASCII only. Unicode spaces, Unicode
  lower-casing and Unicode word characters are not modelled.
- Text.IsSpace: whitespace is space, tab, line feed, carriage return,
  vertical tab and form feed, for the JavaScript and the Python helpers
  alike. Python's `str.strip()` and `str.split()` also count the
  separators U+001C to U+001F as whitespace; JavaScript's `trim` does not.
  The model does not treat those four as whitespace, so the Python-side
  trims and word splits (`chunk_text`, `extract_resume`, the skill
  normalisation of `ats_match`) differ from the source on text that
  contains them.
- JavaScript and Python numbers are reals. There is no NaN, no infinity and
  no rounding error, and `Math.round` is `Floor(x + 0.5)` exactly. The
  referral card's counts are the exception: they are integers, because
  they count referrals.
- RiskAdjust.Adjust: the `{:.2f}` rendering of the score in the
  explanation is the parameter `fmt`. Its digits are not modelled.
- Chunk.ChunkText: requires `Advances(size, overlap)` (the defaults 1200
  and 200 satisfy it). With an overlap too large for the window the
  source's loop can fail to advance, and no model of that loop terminates.
  A negative overlap would advance and terminate, but it is also excluded:
  the source documents the overlap as a number of characters to repeat.
- RateLimit.Throttle: with a non-positive limit and an empty queue the
  source raises on `q[0]`. The model returns None there.
- The module-global `_BUCKETS` map and concurrent access to it are left
  out. The throttle takes the map and returns it.
- AtsMatch.Match: each skill list is a sequence of `Option<string>`, with
  None for a non-string entry. The job's lists are not optional, so the
  source's `or []` guards only the resume's two lists.
- AtsMatch.Match: the explanation's sentences are built, but only its
  opening sentence is stated as a property.
- ReferralFinalize.CookieParts: the regex split on `;` followed by
  optional whitespace is modelled as a split on ";" with leading
  whitespace trimmed from every part after the first. The two agree on
  every header.
- ReferralFinalize.Post: the `Set-Cookie` header text and its production
  `Secure` flag are not modelled; only whether the cookie is cleared is.
  Missing Supabase settings, which make the client constructors throw, are
  configuration and are not modelled either.
- ReferralCard.View: the Premium expiry date is only displayed, and its
  formatting is not modelled.
- Resume.ExtractResume: the debug `print` calls and the 80-byte head
  preview's decoding are left out; the decoding is the `decode` parameter.
- Security headers, pricing, settings, metrics, prompts and the Pydantic
  schemas are left out. They are configuration, or data shapes without
  behaviour, and the model mirrors them as datatypes where needed.
