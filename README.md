# WebCrawler, modelled in Dafny

This project models the core of a small C# web crawler, `WebCrawlerApp.WebCrawler`. The crawler takes a list of seed ("root") URLs and keeps only the absolute `http`/`https` ones. For each kept seed it loads the page and collects the valid `href` values of its anchors and the valid `src` values of its images. It appends them, in the order found, to a per-seed list in a shared dictionary. It then writes a report: each seed on its own line, one line per found URL indented by four spaces, and an empty line.

The model has six modules:

- `Wrappers`: `Option`.
- `Url`: `IsValidUrl` and the `Where(IsValidUrl)` filter.
- `Extraction`: `ExtractUrlsFromTags` and the list `CrawlAsync` returns, as functions of what the network and HTML library produced.
- `Aggregation`: the results table as a `map<string, seq<string>>`, one `AddUrlToDictionary` call (`Appended`), one task's loop (`AppendAll`), tasks run in sequence (`Aggregate`), and the per-key view of the tasks (`Gathered`).
- `Report`: the report as a sequence of lines (`Render`), its line count, and a reader (`ParseReport`) that shows the layout can be read back unambiguously.
- `Crawler`: the class `WebCrawler`. It holds the dictionary as a mutable field and five methods: `AddUrlToDictionary`, `CrawlAsync`, `RunTask` (the body of one task, a loop over the fetched URLs), `CrawlAndSave` (a loop over the valid seeds) and `SaveResultsToFile` (nested loops over the keys and their lists). `IsValidUrl` and `ExtractUrlsFromTags` do not touch the dictionary, so they are module functions in `Url` and `Extraction`. Each method is proved against the functions above. The module also holds `Tasks` and `Crawl` and the lemmas about a whole crawl.

Library calls are parameters:

- `Uri.TryCreate` is the function `tryCreate: string -> Option<ParsedUri>`. Only the parsed scheme is inspected.
- Loading a page gives a `FetchOutcome`: either `LoadFailed` or `Loaded(page)`.
- Each of the two XPath selections gives a `Selection`:
  - `NoMatch`: `SelectNodes` returned null.
  - `Matched(values)`: the attribute values of the matched nodes, in document order.
  - `Faulted(before)`: the library threw after producing the attribute values `before`. `ExtractUrlsFromTags` returns a lazy `Select`/`Where` enumeration, and `AddRange` pulls it one value at a time. So an exception can strike partway, after some values have already been added.

Two behaviours of `WebCrawler.cs` are easy to misread:

- **A selector fault keeps what was already added.** `CrawlAsync` returns `urls` after its `catch`, so a fault never empties the list. A fault in the anchor selector leaves the valid hrefs produced before it. A fault in the image selector leaves every valid href and the valid sources produced before it. The list is empty after a failed load, after an anchor fault that strikes before any value is produced, and for a page with no anchors and no images (`Extraction.DiscoveredOnFailure`, `Extraction.EmptyPageDiscoversNothing`).
- **The dictionary is never cleared.** A second `CrawlAndSaveAsync` on the same object adds to what the first one stored. `CrawlAndSave` therefore starts from the table as it was (`old(resultsDictionary)`).

## Model

| member | source | states |
|---|---|---|
| Url.IsValidUrl | WebCrawler.cs:144-149 | The definition of a valid URL over the absolute-URI parser given as a parameter: the parser accepts the string and the scheme is exactly `http` or `https`. Its one ensures clause follows from that definition |
| Url.WhereValid | WebCrawler.cs:114 | The filter's result is no longer than its input, and every kept URL comes from the input and is valid |
| Url.WhereValidConcat | WebCrawler.cs:114 | Filtering distributes over concatenation, so kept URLs keep their relative input order |
| Url.WhereValidCount | WebCrawler.cs:114 | Each valid URL is kept as often as it occurs in the input (duplicates survive); an invalid one is never kept |
| Url.WhereValidIdentity | WebCrawler.cs:114 | The filter returns its input unchanged if and only if every element is valid |
| Extraction.ExtractUrlsFromTags | WebCrawler.cs:169-174 | The enumeration is cut short exactly when the library faults, and every URL it yields is valid |
| Extraction.ExtractUrlsFromTagsCount | WebCrawler.cs:171-173 | Each valid attribute value the selector produced is yielded as often as it was produced; an invalid one never is. With `Url.WhereValidConcat`, this means the yielded URLs are the valid values in document order. No match yields nothing |
| Extraction.Discovered | WebCrawler.cs:151-167 | Every URL `CrawlAsync` returns is valid |
| Extraction.DiscoveredIsValidAttributes | WebCrawler.cs:159-160 | When the anchor selector does not fault, the result is exactly the valid hrefs followed by the valid srcs the image selector produced, in document order |
| Extraction.DiscoveredCount | WebCrawler.cs:159-160 | When the anchor selector does not fault, duplicates are kept: a valid URL is returned as often as it occurs among the hrefs and srcs together |
| Extraction.DiscoveredOnFailure | WebCrawler.cs:154-166 | A failed load gives the empty list. An anchor-selector fault gives the valid hrefs produced before it, which is empty when it faults at once, and the image selector is never consulted |
| Extraction.EmptyPageDiscoversNothing | WebCrawler.cs:171-173 | A page with no anchors and no images gives the empty list, not an error |
| Aggregation.Appended | WebCrawler.cs:133-142 | A new key gets the one-element list `[url]`. An existing key's list grows by one at its end, and its earlier elements stay as they were. Every other key's list is unchanged |
| Aggregation.AppendAll | WebCrawler.cs:120-123 | The key's list becomes its old list followed by all the URLs, in order. Other keys are unchanged. The key appears only if at least one URL was appended |
| Aggregation.AppendAllStep | WebCrawler.cs:120-123 | Appending the first `j + 1` URLs is appending the first `j`, then one `AddUrlToDictionary` for URL `j` |
| Aggregation.AggregateNoEmptyLists | WebCrawler.cs:133-142 | Running tasks never leaves a key with an empty list |
| Aggregation.Aggregate | WebCrawler.cs:117-127 | The table after the tasks run one after another, each appending what it found under its seed. Its contract states that no key is lost; `AggregateList` gives each key's list and `AggregateKey` the key set |
| Aggregation.AggregateList | WebCrawler.cs:117-127 | After the tasks run, each key's list is its initial list followed by everything its own tasks found, in task order |
| Aggregation.AggregateLast | WebCrawler.cs:117-124 | The last task adds only its own contribution, at the end of each key's list |
| Aggregation.AggregateKey | WebCrawler.cs:117-127 | A key is present at the end if and only if it was present before or one of its tasks found something |
| Aggregation.GatheredEmpty | WebCrawler.cs:117-124 | A key gathers nothing if and only if every task for it found nothing |
| Aggregation.GatheredSingle | WebCrawler.cs:117-124 | A key handled by exactly one task gathers exactly that task's list |
| Aggregation.AggregateSnoc | WebCrawler.cs:117-124 | Running one more task after a batch is one more task loop on the batch's table |
| Aggregation.AggregateStep | WebCrawler.cs:117-124 | The indexed form of one more task, used by the crawl loop: running the first `i + 1` tasks is running the first `i`, then task `i` |
| Aggregation.AggregateConcat | WebCrawler.cs:117-127 | Running two batches of tasks one after the other is running their concatenation |
| Aggregation.GatheredConcat | WebCrawler.cs:117-127 | What a key gathers over two batches is the concatenation of what it gathers over each |
| Aggregation.SwapDistinctTasks | WebCrawler.cs:117-127 | Two adjacent tasks for different seeds give the same final table in either order |
| Report.Render | WebCrawler.cs:180-188 | The report for the keys in the given order, built from `Block`: the key line, each URL indented by four spaces (`Indented`), then an empty line. Its contract states that every key of the order is written as a line. `RenderLength` gives its length and `ParseRender` shows it reads back |
| Report.ReportBlocksNonEmpty | WebCrawler.cs:180-188 | When the table holds no empty list, every key read back from the report has at least one URL line: no key line sits directly above the blank line |
| Report.RenderLength | WebCrawler.cs:180-188 | The report has 2 lines per key plus 1 line per stored URL |
| Report.LineCountOrderFree | WebCrawler.cs:180-188 | The line count is the same for every enumeration order of the keys |
| Report.ReportLength | WebCrawler.cs:176-190 | Any two enumerations of the table give reports of the same length, namely the sum over keys of 2 plus the list length |
| Report.EnumerationLength | WebCrawler.cs:180 | An enumeration of the keys has one position per key |
| Report.TakeIndentedBlock | WebCrawler.cs:183-187 | The indented URL lines of a block end at its empty line, whatever the URLs are |
| Report.ParseRender | WebCrawler.cs:176-190 | Reading a report back gives every key with its full list, in the order written |
| Crawler.Tasks | WebCrawler.cs:114-119 | One task per valid seed, in seed order, with what that seed's crawl discovered. Its contract states that each task's seed is one of the given seeds and that it found only valid URLs |
| Crawler.Crawl | WebCrawler.cs:111-124 | The table after `CrawlAndSaveAsync`'s tasks: the seeds are filtered and each valid seed's discoveries are appended under it. Its contract states that no key is lost; `CrawlKeys` and `CrawlSingleSeed` give its keys and lists |
| Crawler.CrawlAllValid | WebCrawler.cs:111-131 | If the table held only valid URLs, then after a crawl every key and every stored URL is still valid |
| Crawler.CrawlKeys | WebCrawler.cs:111-131 | Starting from an empty table, a URL ends up as a key if and only if it is a valid seed whose task found at least one URL |
| Crawler.CrawlKeysAreValidSeeds | WebCrawler.cs:114-124 | Every new key is one of the root URLs, and a valid one |
| Crawler.CrawlSingleSeed | WebCrawler.cs:111-131 | A seed listed once gets exactly the URLs its own task found, in order, after what it held before |
| Crawler.OccursOnce | WebCrawler.cs:114 | A seed listed once among the root URLs sits at exactly one position of the filtered list |
| Crawler.ScenarioTasks | WebCrawler.cs:114-119 | The seeds `a.test`, `not-a-url` and `b.test` give two tasks: `a.test` with its two links, and `b.test` with nothing |
| Crawler.ScenarioSeeds | WebCrawler.cs:114 | The filter keeps `a.test` and `b.test` and drops `not-a-url`, in order |
| Crawler.ScenarioDiscovered | WebCrawler.cs:151-167 | A page with two valid links and no images yields those two links, in order |
| Crawler.PartialFailureScenario | WebCrawler.cs:111-131 | With those seeds and with `b.test` failing to load, the table holds `a.test` with its two links and nothing else |
| Crawler.ScenarioAggregate | WebCrawler.cs:117-127 | Running those two tasks on an empty table stores `a.test` with its two links and no key for `b.test` |
| Crawler.WebCrawler.constructor | WebCrawler.cs:106-109 | A new crawler starts with an empty dictionary |
| Crawler.WebCrawler.AddUrlToDictionary | WebCrawler.cs:133-142 | The dictionary becomes `Appended` of the old one: create `[url]` or append at the end, leaving other keys alone, and keeping the no-empty-list invariant |
| Crawler.WebCrawler.CrawlAsync | WebCrawler.cs:151-167 | Returns `Discovered` for the fetch outcome: each `AddRange` adds what its enumeration yielded, hrefs then srcs, and the image selector is consulted only when the anchor enumeration completed |
| Crawler.WebCrawler.RunTask | WebCrawler.cs:117-124 | One task appends all of its seed's discovered URLs in order, which is `AppendAll` on the old dictionary |
| Crawler.WebCrawler.CrawlAndSave | WebCrawler.cs:111-131 | The dictionary becomes `Crawl`, the filtered seeds' tasks aggregated onto the old table. The returned lines are the report of the new dictionary for an enumeration of its keys, and no key in it has an empty URL block |
| Crawler.WebCrawler.SaveResultsToFile | WebCrawler.cs:176-190 | The lines written are, for each key in some enumeration covering every key once: the key, its URLs indented by four spaces, and an empty line. Under the no-empty-list invariant, every key read back has at least one URL line |

## Left out

- Network access: `HtmlWeb.LoadFromWebAsync` is not modelled. Its outcome is an input (`FetchOutcome`), one per valid seed.
- HtmlAgilityPack's parsing and XPath evaluation are not modelled. Each selector's result is an input (`Selection`). `GetAttributeValue`'s null default is not modelled, because the selectors `//a[@href]` and `//img[@src]` match only elements that carry the attribute.
- `Uri.TryCreate` is not modelled: absolute-URI parsing is a parameter, and only the scheme of its result is inspected.
- Concurrency: the tasks of `CrawlAndSaveAsync` run concurrently in the original. The model runs them one after another, in seed order, each task as a whole. `Aggregation.SwapDistinctTasks` shows that two adjacent whole tasks for different seeds commute.
- Interleaving of single `AddUrlToDictionary` calls from different tasks is not modelled. The model has no state in which one task has appended only part of its list when another task appends.
- Crawler.CrawlAndSave: a seed listed twice gets its two tasks' lists one after the other. In the original, the two tasks add to the same `List<string>` concurrently. Their elements can interleave, and `List.Add` is not thread-safe, so this case is not captured.
- Crawler.WebCrawler.SaveResultsToFile: the order in which `ConcurrentDictionary` enumerates its keys is unspecified. The model proves the layout for every enumeration of the keys, not for one particular order.
- Report.ParseRender: the report is modelled as a sequence of lines. `WriteLineAsync` separates lines with line breaks, so in the written file a key or URL that itself contains a line break would split into several lines. The read-back result holds for the line sequence, not for such a file.
- Logging of crawl errors to the console, and the file I/O of the report: the model returns the report as a sequence of lines.
- `Program.cs` (command-line handling, reading the seed file) is not part of this model.
- The commented-out earlier version of the crawler at the top of `WebCrawler.cs` (lines 1-88) is not part of this model.
