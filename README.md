# datacenter-news-clipper — a verified model of the news pipeline's core

The clipper searches Google News RSS, deduplicates the results by URL,
classifies them with a language model, and drops the irrelevant ones. It then
removes semantic duplicates with a second language-model pass. This project
models the deterministic logic around those model calls and proves what it
guarantees. The language model and `json.loads` are oracles: parameters the
proofs quantify over.

- **Semantic deduplicator** (`services/deduplicator.py`).
  - The dispatch in `deduplicate_by_summary`.
  - The single-batch path: one call for lists of 2–25 items; it fails open.
  - The overlapping-batches path: windows of 15 items every 12 items, plus a
    set of processed indices.
  - The four-strategy response parser, with its brace-depth scan.
  - The tie-breaking selector `select_best_from_group`.
- **RSS search** (`services/utils/get_search_results.py`): the cutoff filter,
  the `"title - source"` split, the search URL, and the quoted retry.
- **Classifier** (`services/classifier.py`): the per-item label and category
  rule, with the items updated in place in an array, and the relevance filter.
- **URL deduplication loop** of `main.py`.

## How the model is built

- **Oracles.**
  - One classifier call gives back `Reply = CallFailed | Text(raw)`.
    `CallFailed` stands for any exception raised before text exists.
  - The k-th call of a run receives `replies(k)`. The single batch makes call
    0; the overlapping path makes call w for window w.
  - `json.loads` is `loads: string -> Option<Json>`; `None` is a
    `JSONDecodeError`.
- **Python semantics kept explicitly.**
  - A missing `"id"` reads like `null`, since `.get` gives `None` for both.
    `true`/`false` ids are the ints 1/0. A float id compares with `<` but
    cannot index a list. Any other id raises `TypeError` at `<`.
  - Negative ids index from the end of the list (`PyPos`); an id below `-n`
    raises `IndexError`.
  - Default arguments are evaluated eagerly. A "yes" record on the single-batch
    path therefore compares its id with `len(items)` before anything else. A
    `null` id raises `TypeError` there; it is caught, and the whole batch is
    kept.
  - The log line's `title[:k]` raises unless the title is a `str` or a list.
    On the overlapping path this happens before the index is marked processed.
  - Iterating a parse result: a list yields its elements, and an empty `str` or
    dict yields nothing. A non-empty `str` or dict raises at the first `.get`.
    A number is not iterable.
- **Edge cases the code decides.**
  - A `null` id on a "yes" record in the single batch raises `TypeError`; the
    batch is kept (`SingleBatch.NullIdDuplicateKeepsAll`).
  - An item of a parsed single batch that no "no" record names is dropped
    (`SingleBatch.KeptItemsAreNoRecords`).
  - A repeated id repeats the item (`Deduplicator.RepeatedIdRepeatsItem`).
- **Processed items.** The overlapping path's loop state is
  `RunState(processed, kept)`. `kept` holds the list indices of the returned
  items. The methods carry `processed`, the output list and `kept` side by
  side; the output list is always the items at `kept`.
- **Dates.**
  - The RSS code reads the clock once as `now`, in seconds, and a feed entry
    carries its parsed publication time.
  - The selector's date score is a `real` timestamp, 0 when the date cannot be
    parsed.
- **Case mapping.** `lower`/`upper` act on ASCII letters only. Every comparison
  in the core is with an ASCII literal.

## Model

| member | source | states |
|---|---|---|
| Deduplicator.DedupResult | services/deduplicator.py:52-85 | lists of at most one item come back unchanged; every returned item is an input item; on the overlapping path the output is no longer than the input |
| Deduplicator.DeduplicateBySummary | services/deduplicator.py:52-85 | the dispatch returns `DedupResult`: the list itself, the single-batch result, or the overlapping result by length |
| Deduplicator.CallsMade | services/deduplicator.py:64-82 | with at most one item no reply matters; with up to 25 items only the first reply matters |
| Deduplicator.FailOpen | services/deduplicator.py:151-154 | when every classifier call fails the list comes back unchanged, on either path |
| Deduplicator.RecordVerdicts | services/deduplicator.py:137-146 | a well-formed "no" record keeps its item and a "yes" record drops it |
| Deduplicator.WholeReplyParsed | services/deduplicator.py:259-265 | a reply whose stripped text parses as a list is used as that list |
| Deduplicator.DropsMarkedDuplicate | services/deduplicator.py:137-149 | records no/yes/no on three items return the first and third item |
| Deduplicator.RepeatedIdRepeatsItem | services/deduplicator.py:137-142 | two "no" records with the same id return that item twice, so the output is longer than the input |
| PyJson.Elements | services/deduplicator.py:137 | a list yields its elements; an empty str or dict yields nothing; every other value raises before a record is judged |
| Judgments.IdOf | services/deduplicator.py:138 | a record's id as Python's `<` and indexing see it |
| Judgments.ListIndex | services/deduplicator.py:142 | `items[id]` succeeds exactly for an int id in [-n, n), at the Python position |
| Judgments.DuplicateFlag | services/deduplicator.py:139 | a missing flag reads "no"; it raises exactly when the flag is present and not a str; a str flag marks a duplicate exactly when it lower-cases to "yes" |
| Judgments.FlagIgnoresCase | services/deduplicator.py:139 | "YES" and "Yes" mark a duplicate; "yes " and "y" do not |
| Judgments.LessThan | services/deduplicator.py:141 | defines `id < n`: defined for int and float ids, a raise for any other |
| Judgments.PyPos | services/deduplicator.py:142 | defines the position `xs[v]` reads, counting a negative v from the end |
| Judgments.TitleSliceable | services/deduplicator.py:145-146 | defines when `title[:k]` evaluates: the record's title is a str or list, or absent so the item's str title is used |
| Judgments.NotDuplicateVerdict | services/deduplicator.py:141-142 | a "no" record keeps exactly when its id is an int in [-n, n); raises exactly for an uncomparable id, an int below -n or a float below n; never drops |
| Judgments.SingleVerdict | services/deduplicator.py:137-146 | single batch: keeps exactly for a "no" record with an int id in [-n, n); drops exactly for a "yes" record with an int id in [-n, n) and a sliceable title; raises exactly for a non-dict, a non-str flag, a "no" record whose id raises, or a "yes" record whose id cannot be compared (a null id included), is an id below n that cannot index the items, or whose title cannot be sliced |
| Judgments.WindowVerdict | services/deduplicator.py:222-236 | window: keeps or drops exactly for an int id in [-n, n) with the matching flag (drop also needs a sliceable title); a null id is passed over; raises exactly for a non-dict, a non-str flag, an id that cannot be compared, an id below n that cannot index the window, or an in-range "yes" record whose title cannot be sliced |
| SingleBatch.KeptItems | services/deduplicator.py:137-142 | the kept items come from the input, at most one per record |
| SingleBatch.SingleBatchResult | services/deduplicator.py:118-154 | every returned item is an input item |
| SingleBatch.ProcessSingleBatch | services/deduplicator.py:88-154 | the method with its exception handler returns `SingleBatchResult` |
| SingleBatch.JudgeRecords | services/deduplicator.py:137-149 | the record loop reports a raise exactly when some record raises, and otherwise returns the kept items |
| SingleBatch.KeptItemsStep | services/deduplicator.py:137-142 | each record appends at most its own item |
| SingleBatch.FailOpen | services/deduplicator.py:129-131 | a failed call or an unparsable reply keeps the whole batch |
| SingleBatch.NullIdDuplicateKeepsAll | services/deduplicator.py:145 | a "yes" record with a null or missing id keeps the whole batch |
| SingleBatch.ParsedList | services/deduplicator.py:133-154 | a parsed list gives the whole batch if some record raises, and the kept items otherwise |
| SingleBatch.KeepRecords | services/deduplicator.py:137-142 | the increasing positions of exactly the records that keep an item: each listed record keeps one, and every keeping record is listed |
| SingleBatch.KeptItemsAreNoRecords | services/deduplicator.py:137-142 | the i-th returned item is `items[id]` of the i-th keeping record, in record order; no other record adds anything |
| Windows.WindowStart | services/deduplicator.py:160-165 | window w starts at a multiple of 12, namely 12 * w, as `range(0, n, batch_size - overlap)` yields |
| Windows.HasWindow | services/deduplicator.py:165 | the loop visits window w exactly when w is below ceil(n / 12), the number of starts `range(0, n, 12)` yields |
| Windows.WindowEnd | services/deduplicator.py:166 | a window ends at the list's end or 15 items after its start, whichever is first |
| Windows.WindowSize | services/deduplicator.py:165-167 | every visited window is non-empty and has 15 items unless the list ends inside it |
| Windows.WindowsArePrefix | services/deduplicator.py:165 | the visited windows are exactly a prefix 0..k-1 |
| Windows.EveryIndexCovered | services/deduplicator.py:165-167 | every index i lies in window i / 12, which is visited |
| Windows.ConsecutiveWindowsOverlap | services/deduplicator.py:160-167 | consecutive windows share 3 items, fewer at the end of the list; no item lies in windows w and w + 2 |
| OverlappingBatches.KeepIfUndecided | services/deduplicator.py:213-216 | defines keeping index i: appended and marked processed unless already processed |
| OverlappingBatches.Fallback | services/deduplicator.py:209-217 | defines the fallback over a window: KeepIfUndecided on each index in order |
| OverlappingBatches.ApplyVerdict | services/deduplicator.py:226-236 | defines one record's effect: a keep keeps its index if undecided, a drop marks it processed |
| OverlappingBatches.ApplyJudgments | services/deduplicator.py:222-247 | defines judging a window record by record, the first raise sending it to the fallback from the state reached |
| OverlappingBatches.StepWindow | services/deduplicator.py:200-247 | defines one window: the fallback on a failed call, an unparsable or null reply, or a non-iterable one; otherwise the records |
| OverlappingBatches.RunFrom | services/deduplicator.py:165-247 | defines the windows from w on, window k getting reply k |
| OverlappingBatches.OverlappingResult | services/deduplicator.py:157-250 | defines the output as the items at the kept indices of the run from window 0 |
| OverlappingBatches.ExtendsKeepsValid | services/deduplicator.py:163 | a step that only appends unprocessed indices keeps "kept are processed and distinct" |
| OverlappingBatches.KeepIfUndecidedExtends | services/deduplicator.py:214-216 | keeping an undecided index touches only that index and marks it processed |
| OverlappingBatches.FallbackExtends | services/deduplicator.py:209-217 | the fallback only appends unprocessed indices of its own window and keeps what was kept |
| OverlappingBatches.FallbackKeepsUndecided | services/deduplicator.py:243-247 | the fallback appends exactly the window's undecided indices, in window order, after the earlier output |
| OverlappingBatches.FallbackDecidesWindow | services/deduplicator.py:212-216 | after the fallback every index of the window is processed |
| OverlappingBatches.ApplyVerdictExtends | services/deduplicator.py:226-236 | one record touches only its own global index |
| OverlappingBatches.ApplyJudgmentsExtends | services/deduplicator.py:222-236 | judging a window, raise or not, touches only that window; items appended before an exception stay |
| OverlappingBatches.StepWindowExtends | services/deduplicator.py:200-247 | a window, whatever its reply, touches only its own indices |
| OverlappingBatches.RunFromExtends | services/deduplicator.py:165-247 | the remaining windows only append unprocessed indices of their range |
| OverlappingBatches.KeptIndices | services/deduplicator.py:162-250 | every returned index is an index of the list |
| OverlappingBatches.NoItemTwice | services/deduplicator.py:229-231 | no index is returned twice, so the output is no longer than the input |
| OverlappingBatches.DecidedStaysDecided | services/deduplicator.py:229-236 | an index processed and not kept (marked duplicate) is never returned later |
| OverlappingBatches.FailedCallsKeepAll | services/deduplicator.py:240-247 | when every call fails, every item is returned once, in order |
| OverlappingBatches.KeepUndecided | services/deduplicator.py:243-247 | the fallback loop computes `Fallback` and its output list reads the kept indices |
| OverlappingBatches.JudgeWindow | services/deduplicator.py:222-236 | the record loop computes `ApplyJudgments`, falling back on the first raise |
| OverlappingBatches.ProcessWindow | services/deduplicator.py:200-247 | one window computes `StepWindow` |
| OverlappingBatches.ProcessOverlappingBatches | services/deduplicator.py:157-250 | the window loop returns the items at `KeptIndices` |
| ResponseParser.ParseBatchResult | services/deduplicator.py:253-329 | defines the cascade: the first of the four strategies that yields a value, or None |
| ResponseParser.WholeText | services/deduplicator.py:262-269 | defines strategy 1: the whole stripped reply, through Accept |
| ResponseParser.FencedInterior | services/deduplicator.py:272-281 | defines the text strategy 2 parses: the stripped interior after the first fence, past a `json` tag, up to the next fence |
| ResponseParser.FencedBlock | services/deduplicator.py:272-288 | defines strategy 2: the fenced interior, through Accept |
| ResponseParser.BraceSpan | services/deduplicator.py:304-325 | defines strategy 4: the brace-matched span from the first `{`, accepted only as a dict holding "articles" |
| ResponseParser.Accept | services/deduplicator.py:264-267 | a value is accepted exactly when it is a list or a dict holding "articles" |
| ResponseParser.BracketSpan | services/deduplicator.py:291-301 | strategy 3 yields only lists |
| ResponseParser.BracketSpanOfList | services/deduplicator.py:291-299 | with no `[` before the span and no `]` after it, strategy 3 parses exactly the span from the first `[` to the last `]` and yields the list it holds |
| ResponseParser.BracketListReply | services/deduplicator.py:258-299 | a reply without backquotes that does not parse whole, holding one such bracketed list, gives that list |
| ResponseParser.MatchingBrace | services/deduplicator.py:305-317 | the brace span ends where the nesting depth first returns to 0 |
| ResponseParser.ScanBraces | services/deduplicator.py:307-317 | the brace-count loop finds `MatchingBrace`, or stays at the start when depth never returns to 0 |
| ResponseParser.ParseBatchResponse | services/deduplicator.py:253-329 | the cascade returns `ParseBatchResult`, the first strategy that yields a value |
| ResponseParser.UnparsableOnlyWhenAllFail | services/deduplicator.py:258-329 | None comes back exactly when all four strategies fail |
| ResponseParser.ArticlesObject | services/deduplicator.py:262-267 | a whole reply that is a dict holding "articles" yields that key's value |
| ResponseParser.FencedJsonBlock | services/deduplicator.py:272-282 | a single fenced `json` block is read from its stripped interior, after the tag |
| ResponseParser.FencedBareBlock | services/deduplicator.py:272-282 | a single fenced block without a tag (its interior does not start with "json") is read from its stripped interior, after the three backquotes |
| Selector.DateScore | services/deduplicator.py:343-354 | defines the date score: the timestamp, or 0 when the date cannot be parsed |
| Selector.Better | services/deduplicator.py:375-377 | defines the strict ranking: date score, then summary length, then title length |
| Selector.SelectBestFromGroup | services/deduplicator.py:332-384 | returns an index in range; no candidate ranks above it; it ranks strictly above every earlier one |
| Selector.Tied | services/deduplicator.py:375-377 | candidates neither ranking above the other have equal date, summary and title scores |
| Selector.BetterTransitive | services/deduplicator.py:375-377 | the lexicographic ranking is transitive |
| Selector.FirstBestUnique | services/deduplicator.py:364-384 | the selector's two guarantees single out one index |
| Text.Strip | services/deduplicator.py:259 | `strip` never lengthens, and a non-empty result has no whitespace at either end |
| Text.StripDropsOnlySpaces | services/deduplicator.py:259 | `strip` is a slice with only whitespace dropped on each side |
| Text.Find | services/deduplicator.py:274 | `find` gives -1 or a position at or after `from` where the substring occurs |
| Text.FindIsFirst | services/deduplicator.py:274 | no occurrence precedes the one `find` reports |
| Text.RFind | services/deduplicator.py:293 | `rfind` gives -1 or a position where the substring occurs |
| Text.RFindIsLast | services/deduplicator.py:293 | no occurrence follows the one `rfind` reports |
| Text.ContainsIffRFind | services/utils/get_search_results.py:60-61 | `sub in s` exactly when `rfind` finds it |
| Text.Lower | services/deduplicator.py:139 | `lower` keeps the length, turns each of A-Z into its lower-case letter and leaves every other character unchanged |
| Text.Upper | services/utils/get_search_results.py:83 | `upper` keeps the length, turns each of a-z into its capital and leaves every other character unchanged |
| Text.LowerIdempotent | services/classifier.py:37 | lowering twice is lowering once |
| SearchResults.Cutoff | services/utils/get_search_results.py:38 | the cutoff `now - timedelta(days)` equals now exactly when days is 0, lies before now for positive days and after it for negative days |
| SearchResults.PubTime | services/utils/get_search_results.py:42-49 | the entry's parsed date, or `now` when the date cannot be parsed |
| SearchResults.ToItem | services/utils/get_search_results.py:55-74 | the item built from an entry carries the split title and source, the entry's link and its publication time, and no class or category yet |
| SearchResults.Collected | services/utils/get_search_results.py:29-76 | at most one item per entry, each published at or after the cutoff |
| SearchResults.CollectSearchResultsFromRss | services/utils/get_search_results.py:29-76 | the feed loop returns `Collected` |
| SearchResults.CollectedAppend | services/utils/get_search_results.py:40-74 | feed order is kept: a concatenated feed gives the concatenated items |
| SearchResults.CollectedOne | services/utils/get_search_results.py:51-53 | an entry is kept exactly when it is not before the cutoff (an entry at the cutoff stays) |
| SearchResults.UndatedEntryKept | services/utils/get_search_results.py:42-49 | an unparsable date becomes `now`, so the entry is kept whenever `days >= 0` |
| SearchResults.SplitTitle | services/utils/get_search_results.py:59-67 | defines the split at the last " - " into stripped title and source, or the stripped title and "Unknown"; its behaviour is proved by the two lemmas below |
| SearchResults.SplitJoined | services/utils/get_search_results.py:60-63 | `title + " - " + source` splits back into both parts, stripped, when the source holds no " - " and does not start with "- " |
| SearchResults.SourceWithoutSpaces | services/utils/get_search_results.py:60-63 | a source without spaces, hyphenated or not, is split off whole |
| SearchResults.SplitWithoutSeparator | services/utils/get_search_results.py:64-67 | without the separator, the stripped title and "Unknown" |
| SearchResults.BuildUrl | services/utils/get_search_results.py:78-87 | defines the URL as the search endpoint followed by the four parameters joined with '&'; UrlParameters reads it back |
| SearchResults.UrlParameters | services/utils/get_search_results.py:78-87 | the URL is the endpoint then exactly `q`, `hl`, `gl`, `ceid`, with the country upper-cased in both `gl` and `ceid` |
| SearchResults.CountryCode | services/utils/get_search_results.py:83-86 | `country.upper()`: same length, each lower-case letter becomes its own capital, every other character unchanged |
| SearchResults.Quoted | services/utils/get_search_results.py:102 | the retry query is the original query between two double quotes |
| SearchResults.GetSearchResults | services/utils/get_search_results.py:89-107 | the quoted retry happens exactly when the first result is empty; both URLs use "pt-BR"; every result is within the cutoff |
| Classifier.ReadResult | services/classifier.py:36-38 | an annotation exists exactly when the result is a dict with a str or missing label; the stored class is the result's label lower-cased, or "irrelevant" when it is missing; the category is the result's "category" (default "") for a relevant label, and "" otherwise |
| Classifier.Annotate | services/classifier.py:39-40 | defines the in-place update: the class and category fields are set, the rest of the item is unchanged |
| Classifier.CapitalisedLabelKept | services/classifier.py:37-40 | a result labelled "RELEVANT" or "Relevant" is stored as "relevant" with its category and passes the filter |
| Classifier.FirstFailure | services/classifier.py:35-40 | the first item whose classification raises, all before it succeeding |
| Classifier.AddClassifications | services/classifier.py:22-42 | items before the first failure are annotated in place, the rest untouched; success exactly when none fails |
| Classifier.AnnotatedRelevantIff | services/classifier.py:37-49 | an annotated item passes the filter exactly when the result has a "label" that lower-cases to "relevant" |
| Classifier.IsRelevant | services/classifier.py:49 | defines the filter's test: the class, "" when absent, lower-cases to "relevant" |
| Classifier.DropIrrelevant | services/classifier.py:45-49 | every kept item is an input item and relevant |
| Classifier.RelevantSurvives | services/classifier.py:49 | every relevant item is kept |
| Classifier.DropIrrelevantAppend | services/classifier.py:49 | the filter works item by item and keeps order |
| Classifier.DropIrrelevantIdempotent | services/classifier.py:49 | filtering twice is filtering once |
| UrlDedup.UniqueByUrl | main.py:55-60 | defines the output as the first item of each URL, in input order; the lemmas below characterise it |
| UrlDedup.FirstPositions | main.py:55-60 | increasing positions, each the first occurrence of its URL |
| UrlDedup.UniqueAreFirstOccurrences | main.py:57-60 | the output is the input restricted to the first-occurrence positions, in order |
| UrlDedup.EveryFirstKept | main.py:57-60 | every first occurrence is kept |
| UrlDedup.SameUrls | main.py:57-60 | the output has exactly the input's URLs |
| UrlDedup.UniqueHasDistinctUrls | main.py:55-60 | no two output items share a URL |
| UrlDedup.NothingDroppedIffDistinct | main.py:55-60 | the output is as long as the input exactly when the input's URLs are distinct |
| UrlDedup.DedupByUrl | main.py:55-60 | the seen-set loop returns `UniqueByUrl` |

## Left out

- The language-model plumbing is replaced by the `Reply` oracle: `ChatOpenAI`, the prompt templates, `chain.invoke`, the prompt text, and the `json.dumps` of the batch.
- `json.loads` is an abstract parameter; its internals are out of scope.
- `feedparser.parse` is the `fetch` parameter, which maps a URL to its entries.
- `urllib.parse.quote_plus` is the `quote` parameter.
- `parsedate_to_datetime`, the time-zone handling, and `datetime.now` are out of scope. A feed entry carries an optional time in seconds, and the clock is read once as `now`. The source reads the clock once per failed date, so dates differ by the time between readings.
- `dateutil` parsing and `timestamp()` in the selector are out of scope. A candidate carries an optional `real` timestamp.
- Selector.SelectBestFromGroup: requires a non-empty group. Python raises `IndexError` on an empty one, so the method is specified only for non-empty groups.
- Classifier.AddClassifications: items are modelled as an array of values. Aliasing between item dicts shared elsewhere is not modelled.
- Classifier.AddClassifications: an exception ends the call. The model returns `ok = false` instead of raising to the caller.
- `print` logging and the `duplicates_found` counters are out of scope.
- The `confidence_threshold` parameter is out of scope, because the source never reads it.
- The `__main__` demos are out of scope.
- `main.py`'s file reads, file writes and stage sequencing are out of scope. Only the URL loop is modelled.
- services/scraper.py, services/pdf_builder.py and services/utils/datetime_utils.py are not part of this model. They are browser, file and time-zone I/O.
- Text.Lower, Text.Upper: case mapping covers ASCII letters only. Python's Unicode case tables are not modelled.
- A `RecursionError` or `MemoryError` raised inside `json.loads` is not modelled.
