# Chronos search pipeline — a Dafny model

Chronos is a small search front end (`search_app.py`). For a query it reads
DuckDuckGo's HTML result pages into a ranked list of (rank, title, url)
results, fetches the linked pages and reduces each one to plain text, and
then builds an extractive summary: it splits the texts into sentences, keeps
the clean ones that are on topic and not duplicates, takes them up to a word
budget, and presents them under a heading in three sections.

This project models the three steps of that pipeline that hold logic:

- `Fetcher`: the page and anchor loops of `scrape_duckduckgo`. Each result
  page comes in as the anchors the HTML parser found on it, or as a failed
  request. The method `Scrape` runs the loops and is proved equal to the
  function `Expected`. The lemmas about `Expected` state the promises:
  - the error on a failed first page;
  - at most fifty results, ranked 1, 2, 3, ... in order;
  - a title for every result that has a url;
  - pages after the first failed or empty one are never read.
- `Extractor`: the clean-up at the end of `scrape_content`:
  - the first thirty paragraphs are stripped and space-joined, or the
    region's text is used when there are no paragraphs;
  - whitespace is collapsed and the ends are stripped;
  - the text is cut to 8000 characters.
- `Summarizer`: `generate_summary`. Its two loops are methods:
  - `FilterSentences` is the quality and duplicate filter;
  - `SelectByBudget` is the word-budget selection.

  Each is proved equal to a fold (`Accepted`, `Budgeted`). The whole
  function is proved equal to `SummaryOf`. The lemmas state what the summary
  promises:
  - which message it gives, and when;
  - the bullets are stripped candidate sentences, in order;
  - each bullet has a good length;
  - on the primary path, bullets are clean and on topic, and no two share a key;
  - on the fallback path, there are at most twelve boilerplate bullets;
  - the budget admission and stop rules hold;
  - the three sections split the selection evenly.
- `Text`: the Python string operations these rely on:
  - `str.strip`, `str.split()`, `' '.join`;
  - `re.sub(r'\s+', ' ', s)`, `str.lower`, `str.title`;
  - slicing `xs[:n]`.

  It also holds the lemmas that tie them together. The main one is that
  collapsing and stripping whitespace gives the words joined by single
  spaces.

## Model

| member | source | states |
|---|---|---|
| Text.IsSpace | search_app.py:207 | definition of the `str.isspace` set that `split()`, `strip()` and `\s` share; WordsAreWords, LStrip, RStrip and NormalizeSpaceNormalized state what each operation does with it |
| Text.LStrip | search_app.py:207 | what `lstrip` drops is whitespace, and what it keeps starts with a non-space |
| Text.RStrip | search_app.py:207 | what `rstrip` drops is whitespace, and what it keeps ends with a non-space |
| Text.Strip | search_app.py:207 | the stripped sentence is no longer than the original and has no whitespace at either end |
| Text.LStripIsSuffix | search_app.py:207 | what `lstrip` keeps is a suffix of its input |
| Text.RStripIsPrefix | search_app.py:207 | what `rstrip` keeps is a prefix of its input |
| Text.Take | search_app.py:314 | `xs[:n]` is a prefix of `xs`: all of `xs` when it has at most `n` elements, otherwise exactly `n` |
| Text.NormalizeSpace | search_app.py:173 | definition of `re.sub(r'\s+', ' ', text).strip()`; NormalizeSpaceNormalized, NormalizeKeepsWords and NormalizeIsJoinOfWords state its promises |
| Text.CollapseSpace | search_app.py:173 | after `re.sub(r'\s+', ' ', ...)` every whitespace character is a plain space and no two are adjacent |
| Text.Lower | search_app.py:208 | lower-casing keeps the length; each upper-case letter becomes the lower-case letter it is the capital of, every other character is unchanged |
| Text.TitleCase | search_app.py:245 | definition of `query.title()` on ASCII letters; TitleCaseLetters states the casing |
| Text.TitleCaseLetters | search_app.py:245 | `query.title()` upper-cases each letter that starts a run of letters, lower-cases the other letters, and leaves non-letters unchanged |
| Text.Join | search_app.py:168 | definition of `sep.join(parts)`; WordsOfJoin states the words of the result |
| Text.JoinSpaced | search_app.py:198 | definition of `' '.join(parts)`, also used at search_app.py:168 and 216; NormalizedIsJoin, WordsOfJoin and JoinSpacedEmpty state its promises |
| Text.Words | search_app.py:232 | definition of `split()` as a left-to-right scan; WordsAreWords, WordsAround, WordsOfStrip and NormalizeIsJoinOfWords state its promises |
| Text.Contains | search_app.py:212 | definition of the substring test `sub in s`; it is the building block of IsBoilerplate and MentionsQuery |
| Text.ContainsAny | search_app.py:212-213 | definition of `any(w in s for w in ws)`; AcceptedQuality and AcceptedNone state what it decides for the filter |
| Text.WordsAreWords | search_app.py:232 | `split()` yields non-empty words that contain no whitespace |
| Text.WordsAround | search_app.py:168 | splitting text joined by a whitespace separator gives the words of the left part, then those of the right part |
| Text.WordsOfStrip | search_app.py:207 | stripping a string does not change its words |
| Text.NormalizeSpaceNormalized | search_app.py:173 | collapsed and stripped text is single-spaced with no whitespace at either end |
| Text.NormalizeKeepsWords | search_app.py:173 | collapsing and stripping whitespace keeps the words |
| Text.NormalizedIsJoin | search_app.py:173 | a single-spaced string without whitespace at its ends is the single-space join of its words |
| Text.NormalizeIsJoinOfWords | search_app.py:173 | the cleaned text is exactly the words of the raw text joined by single spaces |
| Text.WordsOfJoin | search_app.py:168 | the words of a whitespace-joined list are the words of its parts, in order |
| Text.WordsOfStripAll | search_app.py:168 | stripping each part does not change the words of the list |
| Extractor.RawText | search_app.py:166-170 | definition of the text before clean-up; CleanIsJoinedWords states its words |
| Extractor.ExtractText | search_app.py:166-176 | the extracted text is empty for an unreachable page; otherwise it is the cleaned text when that has at most 8000 characters, and its first 8000 characters when longer |
| Extractor.CleanIsJoinedWords | search_app.py:166-173 | the cleaned text is the words of the first thirty paragraphs (or of the region text) joined by single spaces |
| Extractor.ExtractIsWords | search_app.py:166-174 | the result is a prefix of the page's words joined by single spaces: all of it when it fits in 8000 characters, exactly 8000 characters of it otherwise |
| Extractor.JoinSpacedEmpty | search_app.py:168 | a space-join of non-empty words is empty exactly when there are no words |
| Extractor.ExtractEmpty | search_app.py:173-176 | the result is empty exactly when the page is unreachable or its text holds no word |
| Extractor.ExtractShape | search_app.py:173-174 | the result starts with a non-space and is single-spaced; when the cleaned text fits in 8000 characters (so nothing was cut), it also ends with a non-space |
| Summarizer.SentenceEnd | search_app.py:202 | the first terminator (`.`, `!`, `?`) of a string, or its end when there is none |
| Summarizer.SkipTerminators | search_app.py:202 | a run of terminators is skipped as one separator: what is kept does not start with a terminator |
| Summarizer.LeadingTerminators | search_app.py:202 | the run skipped is all terminators, and put back in front of what is kept gives the string again |
| Summarizer.SplitSentences | search_app.py:202 | `re.split(r'[.!?]+', ...)` yields at least one piece, and no piece holds a terminator |
| Summarizer.SplitKeepsText | search_app.py:202 | the pieces, concatenated, are the text with its terminators removed |
| Summarizer.Separators | search_app.py:202 | there is one separator between each two pieces, and each is a non-empty run of terminators |
| Summarizer.SplitRoundTrip | search_app.py:202 | the pieces with the separator runs put back between them give the text again |
| Summarizer.SplitInteriorNonEmpty | search_app.py:202 | only the first and the last piece can be empty; with the round trip, pieces free of terminators and non-empty runs, every run is a maximal one, so the split is exactly at the maximal terminator runs |
| Summarizer.Candidates | search_app.py:198-202 | definition: `re.split(r'[.!?]+', ' '.join(contents))`; SplitKeepsText, SplitRoundTrip and SplitInteriorNonEmpty state the split |
| Summarizer.QueryWords | search_app.py:199 | definition; LongWordsLoweredSpec states its promise |
| Summarizer.LongWordsLoweredSpec | search_app.py:199 | the query words are exactly the lower-cased query words longer than two characters |
| Summarizer.LengthOk | search_app.py:211 | definition of `25 < len(sentence) < 300`; AcceptedQuality, LengthBounded and LengthBoundedStep state where it holds |
| Summarizer.IsBoilerplate | search_app.py:212 | definition: the lowered sentence contains a blocklisted phrase; AcceptedQuality, AcceptedNone and FallbackIsBoilerplate state its use |
| Summarizer.MentionsQuery | search_app.py:213 | definition: the lowered sentence contains a query word; AcceptedQuality and AcceptedCovers state its use |
| Summarizer.Qualifies | search_app.py:211-213 | definition of the length, blocklist and relevance-or-allowance test; AcceptedQuality and AcceptedCovers state its two directions |
| Summarizer.SentenceKey | search_app.py:216 | definition of the first-five-words key; AcceptedDistinctKeys and AcceptedCovers state what it guarantees |
| Summarizer.Accepted | search_app.py:206-219 | definition of the filter pass as a fold; AcceptedQuality, AcceptedDistinctKeys, AcceptedSubseq, AcceptedPrefix and AcceptedCovers state its promises |
| Summarizer.FilterSentences | search_app.py:203-219 | the filter loop yields the ordered fold `Accepted` of the length, blocklist, relevance and first-five-words key tests |
| Summarizer.AcceptedQuality | search_app.py:211-213 | every accepted sentence has a good length and no blocklisted phrase, and every one from the fourth on mentions a query word |
| Summarizer.AcceptedDistinctKeys | search_app.py:215-219 | no two accepted sentences share their first-five-words key |
| Summarizer.AcceptedSubseq | search_app.py:206-219 | the accepted sentences are stripped candidates, in candidate order |
| Summarizer.AcceptedPrefix | search_app.py:206-219 | what is accepted from the first `j` candidates stays, in order, at the front of the final list |
| Summarizer.AcceptedCovers | search_app.py:206-219 | a candidate with a good length and no blocklisted phrase, that mentions the query or comes while fewer than three are accepted, has its key accepted right after it is read (it is taken, or an earlier sentence with that key was), and so in the final list |
| Summarizer.AcceptedCoversAt | search_app.py:211-219 | the same, for one candidate |
| Summarizer.AcceptedNone | search_app.py:211-213 | when nothing is accepted, every candidate of a good length holds a blocklisted phrase |
| Summarizer.LengthBounded | search_app.py:224 | the length-filtered stripped sentences all have a good length |
| Summarizer.LengthBoundedSubseq | search_app.py:224 | the length-filtered sentences are stripped candidates, in order |
| Summarizer.LengthBoundedAppend | search_app.py:224 | the length filter of two lists joined is the two filtered lists joined |
| Summarizer.LengthBoundedStep | search_app.py:224 | reading a candidate adds its stripped text to the list exactly when that has a good length |
| Summarizer.LengthBoundedEmpty | search_app.py:224 | the length filter yields nothing exactly when no stripped candidate has a good length |
| Summarizer.Fallback | search_app.py:222-224 | the fallback holds at most twelve sentences, each of a good length, and is the start of the length-filtered list (all of it when shorter) |
| Summarizer.FallbackSubseq | search_app.py:224 | the fallback sentences are stripped candidates, in order |
| Summarizer.FallbackIsBoilerplate | search_app.py:222-224 | when the fallback is used, every sentence in it holds a blocklisted phrase |
| Summarizer.WordCount | search_app.py:232 | definition of `len(sentence.split())`; WordsAreWords states what a word is |
| Summarizer.TotalWords | search_app.py:228-238 | definition of `word_count` over a selection; TotalWordsAppend states how it grows |
| Summarizer.Budgeted | search_app.py:231-241 | definition of the budget loop as a fold; BudgetedStep, BudgetedAdmission, BudgetedOvershoot and BudgetedBelowFloor state its promises |
| Summarizer.SelectByBudget | search_app.py:227-241 | the budget loop yields the ordered fold `Budgeted` |
| Summarizer.TotalWordsAppend | search_app.py:232-235 | the running word count of a selection grows by the word count of each appended sentence |
| Summarizer.BudgetedSubseq | search_app.py:231-238 | the selected sentences are good sentences, in order |
| Summarizer.BudgetedTakesFirst | search_app.py:233-238 | the first good sentence is always selected |
| Summarizer.BudgetedAllFit | search_app.py:231-235 | when all good sentences together stay under the target, all are selected |
| Summarizer.BudgetedAdmission | search_app.py:231-241 | each selected sentence was taken while the count was below 2000, and either it fit the target or the count was below 1500 |
| Summarizer.BudgetedStep | search_app.py:231-241 | one sentence further, the sentence is selected exactly when it is admissible given the words selected before it: below 2000, and either it fits 2000 or the count is below 1500 |
| Summarizer.BudgetedBelowFloor | search_app.py:236-238 | a selection that totals under 1500 words skipped nothing |
| Summarizer.BudgetedOvershoot | search_app.py:233-241 | a selection goes past 2000 words only through its last sentence, which was taken below 1500 |
| Summarizer.Sections | search_app.py:248-253 | three sections, titled in order, whose bullets are the selection in order; the first two have a third each and the last gets the remainder |
| Summarizer.BulletsOfSections | search_app.py:248-260 | reading the sections' bullets in order gives back the selection |
| Summarizer.ChooseSentences | search_app.py:206-224 | the good sentences are the accepted ones, or the fallback when none is accepted |
| Summarizer.Chosen | search_app.py:206-224 | definition of `good_sentences` after the fallback; ChosenEmpty, AcceptedQuality and FallbackIsBoilerplate state its promises |
| Summarizer.ChosenEmpty | search_app.py:206-224 | there are no good sentences exactly when no stripped candidate has a good length |
| Summarizer.Heading | search_app.py:245 | definition: "Overview of " and the title-cased query; TitleCaseLetters states the casing |
| Summarizer.Present | search_app.py:244-264 | definition of the overview versus limited-content choice; SummaryLimited and SummaryOverview state its promises |
| Summarizer.SummaryOf | search_app.py:193-264 | definition of the whole summary; SummaryNoContent, SummaryLimited and SummaryOverview state its promises |
| Summarizer.GenerateSummary | search_app.py:193-264 | the summary is `SummaryOf(query, contents)` |
| Summarizer.SummaryNoContent | search_app.py:195-196 | the no-content message is given exactly when there are no contents |
| Summarizer.SummaryLimited | search_app.py:244-264 | with contents, the limited-content message is given exactly when no candidate sentence has a good length once stripped |
| Summarizer.SummaryOverview | search_app.py:243-262 | an overview has the "Overview of" heading and three sections. Its bullets are stripped candidates, in order, each of a good length. On the primary path they are clean, on topic from the fourth on, and have distinct keys. On the fallback path there are at most twelve, all boilerplate |
| Fetcher.AnchorsOf | search_app.py:288-290 | definition: the `result__a` anchors, or the `result__url` anchors when there are none; used by Harvest and Scrape |
| Fetcher.ResolveUrl | search_app.py:297-303 | definition: the stripped href, unwrapped when it contains `uddg=`; EntryOf states it is the result's url |
| Fetcher.Stops | search_app.py:282-293 | definition of the two `break`s: a failed request or a page without anchors; LaterPagesIgnored states that nothing after it is read |
| Fetcher.Harvest | search_app.py:274-306 | definition of the entries of pages 0 to 4 up to the first failed or empty one; HarvestTitled, LaterPagesIgnored and OnlyFivePages state its promises |
| Fetcher.Expected | search_app.py:266-314 | definition of the outcome; ExpectedFacts states its promises and Scrape is proved equal to it |
| Fetcher.EntryOf | search_app.py:296-305 | the title is the stripped anchor text when that is not empty, and the url otherwise; the url is the stripped href, unwrapped when it holds `uddg=` |
| Fetcher.EntriesOf | search_app.py:295-306 | one entry per anchor, in order: the `i`-th entry is the `i`-th anchor's |
| Fetcher.Numbered | search_app.py:306 | one numbered result per entry |
| Fetcher.ReadAnchor | search_app.py:296-305 | the per-anchor statements yield the entry `EntryOf` describes |
| Fetcher.ReadAnchors | search_app.py:295-309 | the anchor loop appends the numbered entries of the anchors it reads, stays within fifty results, and stops early only at fifty |
| Fetcher.Scrape | search_app.py:266-314 | the page loop and the anchor loop yield `Expected(query, pages, unwrap)` |
| Fetcher.EntriesOfTitled | search_app.py:304-305 | no entry has an empty title unless its url is empty too |
| Fetcher.HarvestTitled | search_app.py:274-306 | no harvested entry has an empty title unless its url is empty too |
| Fetcher.ExpectedFacts | search_app.py:266-314 | an empty query gives no results. The error is raised exactly when the first request fails. Otherwise there are min(harvested, 50) results, ranked 1, 2, 3, ..., each matching the harvested entry at its position |
| Fetcher.LaterPagesIgnored | search_app.py:282-293 | pages after the first failed or empty page have no effect |
| Fetcher.OnlyFivePages | search_app.py:274 | pages after the fifth have no effect |

## Left out

- The HTTP requests, BeautifulSoup parsing and the Streamlit interface are
  not modelled. A result page arrives as its `result__a` and `result__url`
  anchors. A fetched page arrives as its paragraph texts and region text.
  In `scrape_duckduckgo` only a failed request is the `RequestFailed` case;
  its parse is outside the `try` and is taken never to raise. In
  `scrape_content` the bare `except` covers request and parse alike, and
  either failure is the `Unreachable` case.
- Missing result pages are not modelled separately. A page beyond the given
  responses counts as an empty page, which stops the loop just as the source
  does.
- A missing `href` is the empty string, as `a.get('href', '')` makes it.
- `urlparse`/`parse_qs` are not modelled. Reading the `uddg` parameter is the
  function parameter `unwrap` of `Fetcher.ResolveUrl`, applied only to urls
  that contain `uddg=`.
- `Text.Lower`: only ASCII letters are lower-cased. Python's `str.lower` also
  covers other scripts.
- `Text.TitleCaseLetters`: only ASCII letters count as cased characters,
  unlike Python's `str.title`.
- `Text.IsSpace` is Python's `str.isspace` set. `re`'s `\s` on `str`
  patterns is taken to be that same set.
- `format_sentence` (search_app.py:178-191) is not modelled. It rewrites
  bullets into emphasis markup, which is presentation only. The bullets are
  modelled as the sentences it is given.
- The HTML of the summary is not modelled:
  - the emoji and style attributes of the heading and section titles;
  - the `<h3>`/`<h4>`/bullet strings;
  - the skipping of empty sections when rendering.

  A summary is the heading text plus three titled sections. Empty sections
  are kept in the model.
- Summarizer.SummaryOverview: on the fallback path (search_app.py:222-224)
  no deduplication is applied, so bullets may share a first-five-words key.
  The distinct-key guarantee is proved for the primary path only.
- In `scrape_duckduckgo`, errors raised by the parser or by `get_text`
  (search_app.py:287-296, outside the `try`) would propagate to the caller.
  They are not modelled. Only request failures are.
