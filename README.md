# Web Intelligence Gatherer — a Dafny model of its search core

The Web Intelligence Gatherer is a command-line tool. It sends one keyword to
several public search providers at once:

- an encyclopedia (Wikipedia);
- a code host (GitHub);
- a question-and-answer site (Stack Overflow);
- a link aggregator (Hacker News);
- a news site (Google News).

It turns every provider's answer into records of the same shape:
`source`, `title`, `description`, `url` and `timestamp`. It merges the lists
in the order the searches finish and keeps the first result for each URL.
It can print the results grouped by source or write them out as CSV.

This project models that core in Dafny and proves what it promises.

| file | module | what it models |
|---|---|---|
| `wrappers.dfy` | `Wrappers` | `Option` and `Result` |
| `config.dfy` | `Config` | the constants of `config.py` (the result cap, keyword bounds, source lists) |
| `records.dfy` | `Records` | a result as a dictionary, and `dict.get` with a default |
| `text.dfy` | `Text` | `str.replace`, `str.join` and `str(int)`, with their facts |
| `registry.dfy` | `Registry` | the searcher table of `_get_searcher` and the sources `search` submits |
| `validation.dfy` | `Validation` | the constructor's checks, and `main`'s `all` expansion and source check |
| `searchers.dfy` | `Searchers` | the result cap, the five adapters' field transforms, `results[:max_results]`, and the `Searcher` object |
| `dedup.dfy` | `Deduplication` | the deduplication pass at the end of `search` |
| `gatherer.dfy` | `Orchestrator` | the `WebIntelligenceGatherer` object: construction, searcher lookup, and `search` (collection, then deduplication) |
| `csv.dfy` | `Csv` | `ReportGenerator.to_csv`, and a reader for its layout |
| `grouping.dfy` | `Grouping` | the grouping loop of `print_results` |

Objects whose fields the program updates in place are Dafny classes:

- `Searchers.Searcher`: its `results` list grows inside `search()`.
- `Orchestrator.Gatherer`: its `allResults` is extended, then replaced by the deduplicated list.

The loops are methods with loop invariants, each proved against a
specification function:

- the deduplication pass;
- the collection loop;
- each adapter's item loop;
- the CSV writer;
- the grouping loop.

The properties are then proved about those functions.

Results with an empty or missing URL are dropped. The deduplication pass
(`main.py:344-347`) keeps a result only when its `url` is truthy.
`Deduplication.Dedup` does the same. `Deduplication.EmptyUrlsAreDropped`
shows it on four results: two with the same URL and two with none leave one
result.

## Model

| member | source | states |
|---|---|---|
| Records.MakeRecord | main.py:78-84 | an adapter's record has exactly the five keys, each holding the given value |
| Records.Field | main.py:255-259 | `dict.get(key, default)` gives the stored value when the key is present and the default otherwise |
| Text.ReplaceKeepsPlain | main.py:81 | `str.replace` leaves text that cannot start the pattern unchanged, whatever follows it |
| Text.ReplaceCharPointwise | main.py:82 | replacing one character by another keeps the length, and changes exactly the positions that held the old character |
| Text.ReplaceLength | main.py:145 | `str.replace` with a replacement as long as the pattern keeps the length; with a shorter one it never lengthens the text |
| Text.IntToDecimal | main.py:177 | `str(i)` of an integer is `-` followed by the digits of `-i` exactly when `i < 0`, otherwise the digits of `i`; in both cases no leading zero except for `0` itself |
| Text.JoinLength | main.py:261 | `sep.join(parts)` is empty for no parts, and otherwise as long as the parts together plus one separator between each two |
| Text.NatToDecimal | main.py:146 | `str(n)` of a natural number is a non-empty string of decimal digits whose value is `n`, with no leading zero except for `0` itself |
| Registry.Resolve | main.py:294-304 | a name resolves if and only if it is one of the five configured sources, and then to the searcher whose `source_name` is that name |
| Registry.Submitted | main.py:321-325 | `search` submits at most one search per requested name, and only for configured sources |
| Registry.ValidSourcesAllSubmitted | main.py:321-325 | once every name is valid, one search is submitted per listed name, in order, duplicates included |
| Validation.UnknownNames | main.py:288-289 | `set(sources) - set(AVAILABLE_SOURCES)` is empty exactly when every listed name is configured, and holds only listed names |
| Validation.CheckRequest | main.py:280-290 | the constructor raises exactly when the keyword is shorter than 2 or longer than 200, or a source is unknown; 2 and 200 are accepted; the first failing check names the error, and an unknown-source error lists exactly the unknown names |
| Validation.PrepareRun | main.py:446-458 | only the exact list `['all']` becomes every source; `main` goes on to build the gatherer exactly when the keyword length is within bounds and every name is known; the gatherer then gets the list as given (or every source) and its constructor does not raise |
| Validation.AllMustStandAlone | main.py:446-455 | `all` mixed with other names is rejected as an unknown source, before the keyword is checked |
| Validation.DefaultSourcesAreValid | config.py:30 | the default source list passes unchanged for any keyword of valid length |
| Searchers.Cap | main.py:32 | `min(requested, 50)`: at most the request, at most 50, and equal to one of them |
| Searchers.PrefixSlice | main.py:88 | Python's `s[:n]` is a prefix of `s`; its length is `min(n, len(s))` for `n >= 0`, and `max(len(s) + n, 0)` for a negative `n` |
| Searchers.AdapterReturnsCappedPrefix | main.py:88 | for a non-negative request, an adapter returns a prefix of what it gathered, no longer than the request or 50, and cut only at the cap |
| Searchers.StoryUrl | main.py:178 | a Hacker News record always has a URL: the story's own URL when it is non-empty, otherwise the item link on `news.ycombinator.com` |
| Searchers.ToRecord | main.py:77-84 | every record carries the searcher's name and the clock reading; every item yields a record except a news article without heading or link; a story's URL is never empty; an encyclopedia URL always starts with the article base |
| Searchers.FindAll | main.py:200 | `find_all(limit=n)` returns a prefix of the articles: all of them for `n == 0`, exactly `min(n, len)` for `n > 0`, and at most one for `n < 0` |
| Searchers.HarvestStamped | main.py:78-84 | every record an adapter appends carries its `source_name` and the timestamp |
| Searchers.HarvestLength | main.py:202-215 | an adapter appends at most one record per item |
| Searchers.HarvestKeepsEveryHit | main.py:109-116 | outside Google News, an adapter appends exactly one record per item |
| Searchers.HarvestStoriesHaveUrls | main.py:173-180 | every Hacker News record has a non-empty URL |
| Searchers.HarvestWikipediaLinks | main.py:77-84 | every encyclopedia record links into `https://en.wikipedia.org/wiki/` |
| Searchers.WikipediaUrlFacts | main.py:82 | the article link is the base followed by the title with each space, and only each space, turned into `_` |
| Searchers.StripHighlightRecoversText | main.py:81 | removing the search-match markup from a snippet marked up as the adapter expects gives back its plain text, when the text holds no `<` |
| Searchers.UnescapeTitleRoundTrip | main.py:145 | decoding `&quot;` and then `&amp;` undoes the provider's encoding of `"` and `&` exactly, even for a title that contains the text `&quot;` |
| Searchers.Searcher.constructor | main.py:30-34 | a new searcher holds the keyword, the capped limit, its source name and no results |
| Searchers.Searcher.Search | main.py:65-88 | `search()` appends one record per item it keeps (none when the request fails), and returns the first `max_results` of its accumulated results |
| Deduplication.KeptPositions | main.py:343-347 | the positions the pass keeps are in range and strictly increasing |
| Deduplication.DedupKeepsFirstOccurrences | main.py:343-347 | the deduplicated list is the order-preserving subsequence of the input at exactly the positions that hold the first occurrence of a non-empty URL |
| Deduplication.DedupUrls | main.py:340-349 | after deduplication every result has a non-empty URL, no two share one, and the URLs kept are exactly the non-empty URLs of the input |
| Deduplication.DedupOfUniqueIsIdentity | main.py:343-347 | a list whose URLs are already non-empty and distinct is left unchanged |
| Deduplication.DedupIdempotent | main.py:343-347 | deduplicating twice gives the same list as deduplicating once |
| Deduplication.PassStep | main.py:344-347 | the next result is kept exactly when its URL is non-empty and not seen before |
| Deduplication.UniqueByUrl | main.py:340-349 | the loop with the `seen_urls` set computes the deduplicated list |
| Deduplication.EmptyUrlsAreDropped | main.py:344-347 | two results sharing a URL, followed by two with an empty URL, leave the first result only |
| Orchestrator.CollectedAppend | main.py:328-332 | collecting two runs of completions gives the two collections concatenated |
| Orchestrator.RaisedSearchIsSkipped | main.py:330-335 | a search that raised adds nothing, and the results before and after it are still collected |
| Orchestrator.AllRaisedCollectsNothing | main.py:328-335 | when every search raised, nothing is collected |
| Orchestrator.CollectedBound | main.py:328-332 | when each search returns at most `m` results, at most `m` per search reach deduplication |
| Orchestrator.CappedSearchesBound | main.py:328-332 | when every adapter returns its capped slice, at most `min(max_results, 50)` results per search, and so at most 50 per search, reach deduplication |
| Orchestrator.Gatherer.constructor | main.py:273-278 | a gatherer that passed validation holds its request and no results |
| Orchestrator.NewGatherer | main.py:273-290 | construction raises exactly when `CheckRequest` reports an error; otherwise it yields a fresh gatherer holding the request and no results |
| Orchestrator.Gatherer.GetSearcher | main.py:292-306 | a fresh searcher for a known source, with the gatherer's keyword and capped limit; null for an unknown source |
| Orchestrator.Gatherer.CollectAll | main.py:328-335 | the completion loop extends `all_results` by every returned list, in completion order |
| Orchestrator.Gatherer.Search | main.py:308-351 | `all_results` becomes the deduplication of the old list followed by the collected results, and `search` returns it |
| Orchestrator.SearchOutcome | main.py:321-349 | for a validated request, every source is submitted, and the final results have unique non-empty URLs, cover every returned non-empty URL and are stable under deduplication |
| Csv.ToCsv | main.py:247-263 | the writer's loop produces the report: the placeholder for no results, otherwise the header followed by one line per result, in order |
| Csv.UnquoteRoundTrip | main.py:256-257 | the doubled-quote escaping is undone by reading up to the single closing quote, whatever the field contains |
| Csv.RowRoundTrip | main.py:254-261 | a line read back gives the record's five fields, with `''` for a missing key, as long as the source and URL hold no comma and the timestamp holds no newline |
| Csv.ReportRoundTrip | main.py:247-263 | reading the whole report back gives one entry per result, in order, with every field as the result had it |
| Grouping.Members | main.py:365-369 | a group holds only results of its source, and no more of them than the input |
| Grouping.GroupBySource | main.py:363-369 | the loop builds the key order of first appearance, and the map from each source to its results in input order; a missing source counts as `unknown` |
| Grouping.SourceOrderFacts | main.py:363-369 | each source appears once in the key order, and exactly the sources the results carry appear |
| Grouping.FirstAppearanceOrder | main.py:365-368 | a source listed earlier occurs in the results before every occurrence of a source listed later |
| Grouping.GroupsPartition | main.py:363-369 | taken in key order, the groups hold every result exactly as many times as the input does |

## Left out

- HTTP requests, timeouts and retries (`_safe_request`, `main.py:40-55`) are network I/O. A searcher is given either the provider's items or a failed request. The two attempts in total are not modelled.
- JSON decoding and HTML parsing are library calls. The provider's response is given as a list of items whose fields may be missing.
- A JSON `null` field is modelled like a missing key: the record holds the `.get` default. `Record` maps strings to strings and cannot hold `None`. The program behaves differently:
  - a `null` encyclopedia title or snippet, or a `null` Stack Overflow title or tag list, makes the adapter raise inside its loop; the outer `try` catches it and the records appended before are kept;
  - a `null` GitHub name, description or link, Stack Overflow link, or Hacker News title is stored as `None`;
  - a `null` Stack Overflow score, or Hacker News points, comment count or `objectID`, becomes the text `None`;
  - a `None` URL is dropped by deduplication, and a `null` Hacker News URL takes the item link (`None or link`), as modelled;
  - a stored `None` title or description makes `to_csv` raise (`main.py:256-257`); `print_results` prints a `None` title as the text `None` (`main.py:377`) and raises only on a `None` description (`main.py:378`).
- An exception part-way through an adapter's item loop would keep the records appended so far. The model appends all or nothing.
- The thread pool and `as_completed` scheduling are concurrency. The order in which searches finish, and what each returned or raised, is a parameter of `Gatherer.Search`. Its precondition says the completions are those of the submitted searches, in some order.
- `datetime.now()` is read once per record in the source. The model uses one clock reading per search, the parameter `now`. The elapsed `search_time` is a clock reading and is not modelled.
- `to_json`, console printing and colours, argument parsing and file writing are output and UI.
- The adapters' request parameters (`srlimit`, `per_page`, `pagesize`, `hitsPerPage`) only shape the remote request. The item lists are given as they came back.
- StripHighlightRecoversText: stated only for snippets whose text holds no `<`. Snippet text with its own markup cannot be told apart from the match markup.
- StripHighlightRecoversText: assumes the provider spells the opening match tag exactly as `main.py:81` does, `<span class='searchmatch'>` with single quotes. An opening tag spelled any other way (double quotes, say) is not removed and stays in the description; only `</span>` is stripped.
- ReportRoundTrip: stated only for records whose source and URL hold no comma and whose timestamp holds no newline. The writer does not quote these three fields, so such records are not readable back.
