# Webmail harvester: the targeted crawl, the batch scrape and the format filter

This project models the server actions of a web-page email harvester in Dafny and proves what they
promise. The actions are in `src/app/actions.ts`:

- `getPage` fetches a URL. It keeps the body only for an ok HTML response.
- `targetedCrawl` walks one seed's same-host links from the seed page. It follows only links whose URL
  or anchor text mentions a contact keyword, down to a depth bound. It collects the distinct
  `EMAIL_RE` matches of every page it fetched.
- `scrapeEmailsAction` turns an uploaded text into seeds, one per non-blank line. It crawls the seeds
  ten at a time and flattens the results into `(website, email)` rows.
- `formatEmailsAction` sends the distinct emails of the rows to a formatting flow. It keeps only the
  rows whose email came back.

The network, the HTML parser and URL parsing are parameters. A `Web` value supplies:

- the HTTP outcome of a URL;
- the `a[href]` anchors of an HTML text, in document order;
- `new URL(s)`;
- `new URL(href, base)`.

The two URL constructors return `None` where the library throws; the anchors are a plain list. The formatting flow is likewise a function
that either returns a list of emails or fails.

Modules:

- `Wrappers`: `Option` and `Outcome`.
- `Seqs`: a JavaScript `Set` as a duplicate-free list in insertion order, flattening and subsequences.
- `Text`: `trim`, `startsWith`, `includes`, `toLowerCase`, and `split('\n')`.
- `EmailPattern`: the global scan of `EMAIL_RE`, with leftmost-greedy backtracking written out.
- `Fetch`: the `getPage` decision and the abstract web.
- `CrawlPolicy`: the link gates.
- `CrawlSpec`: the crawl as a function of the shared state, with its lemmas.
- `Crawling`: the imperative crawl. A `Crawler` class holds `visited` and `emails`. Its recursive
  method `Crawl` is proved equal to `CrawlSpec.Visit`.
- `Batch`: seeds, prefixing, the chunk loop and rows.
- `Format`: `formatEmailsAction`.

Each crawl keeps a ghost log of the URLs it handed to `getPage`. The statements about fetching are
made against that log.

Sibling links are crawled one after the other, in document order. Each `crawl` call marks its URL
visited before its first `await`. So at depth 1, the only depth the batch uses, which URLs are fetched
does not depend on the interleaving. `CrawlSpec.CrawlDepthOne` states it exactly. At depth 2 or more
the model is not exact (see "## Left out").

`Promise.all` keeps input order, so rows come out in seed order.

Two behaviours of the code are kept as written:

- The prefix test is `startsWith('http')`. A seed such as `httpbin.org` is therefore not prefixed. Its
  crawl then finds nothing if `new URL` rejects it (`Batch.WithSchemeKeepsHttpLookalike`).
- The seed is marked visited under the text of the start URL as given, while links are compared by
  their resolved `href`. A link back to the seed that serialises differently (for example with a
  trailing `/`) is fetched a second time. `CrawlSpec.CrawlDepthOne` shows this: only `{startUrl}` is
  excluded.

## Model

| member | source | states |
|---|---|---|
| Fetch.GetPage | src/app/actions.ts:14-29 | content is returned exactly when the fetch produced a response with a 2xx status whose content type (empty when absent) contains `text/html` and whose body could be read, and then it is that body |
| Fetch.FetchPage | src/app/actions.ts:45-53 | a page contributes emails and links exactly when `getPage` returned a non-empty text, and every email it contributes has the pattern's shape |
| EmailPattern.MatchAt | src/app/actions.ts:7 | a match that starts at a position ends after it, and the matched text has the shape local@domain.tld |
| EmailPattern.MatchEmails | src/app/actions.ts:50 | every match of the global scan is a substring of the page and has the email shape (non-empty `[a-zA-Z0-9._%+-]` local part, `@`, non-empty `[a-zA-Z0-9.-]` domain, `.` and two or more letters) |
| EmailPattern.ShapeMatchesWhole | src/app/actions.ts:7 | a text that has the email shape is matched whole, as a single email |
| EmailPattern.ScanFrom | src/app/actions.ts:50 | every match from a position on, searched leftmost from the end of the previous match, has the email shape and occurs in the page |
| Text.Contains | src/app/actions.ts:21 | `includes` holds exactly when the pattern occurs at some position |
| Text.StartsWith | src/app/actions.ts:64 | `startsWith` is a test on the first characters; its consequences are stated by `CrawlPolicy.LinkTarget` and `Batch.WithScheme` |
| Text.Trim | src/app/actions.ts:63 | the result has no whitespace at either end, and is empty exactly when the input is all whitespace |
| Text.TrimOfTrimmed | src/app/actions.ts:100 | a string with no whitespace at either end is its own trim |
| Text.TrimIdempotent | src/app/actions.ts:100 | trimming twice is trimming once |
| Text.ToLower | src/app/actions.ts:71 | lower-casing keeps the length, turns each capital ASCII letter into its own small letter, and leaves every other character alone |
| Text.SplitLines | src/app/actions.ts:100 | splitting on `\n` gives at least one piece and no piece holds a newline |
| Text.JoinSplitLines | src/app/actions.ts:100 | joining the pieces with `\n` gives the input back |
| Text.SplitJoinLines | src/app/actions.ts:100 | splitting newline-free lines joined by `\n` gives the lines back |
| Seqs.AddAll | src/app/actions.ts:51-53 | adding to a `Set` keeps it duplicate-free, keeps what it held in front in the same order, and holds afterwards exactly the old and the added elements |
| Seqs.AddAllSnoc | src/app/actions.ts:51-53 | a `Set` keeps insertion order: one more `add` appends its element at the end when it is new and changes nothing when it is present |
| Seqs.Distinct | src/app/actions.ts:144 | `Array.from(new Set(xs))` has no duplicates and the same elements as `xs` |
| Seqs.DistinctSnoc | src/app/actions.ts:144 | `Array.from(new Set(xs))` lists the elements in order of first occurrence: one more element is appended when new and ignored when repeated |
| Seqs.AddAllNew | src/app/actions.ts:51-53 | adding elements that are all new and distinct appends them in order |
| Seqs.DistinctOfNoDup | src/app/actions.ts:144 | a list without duplicates passes through the `Set` unchanged |
| CrawlPolicy.NonNavigable | src/app/actions.ts:64 | an empty href or one starting with `mailto:`, `javascript:` or `tel:` is skipped; `CrawlPolicy.LinkTarget` states the skip |
| CrawlPolicy.AnyKeyword | src/app/actions.ts:72 | `some` holds exactly when one of the keywords occurs in the URL or in the link text |
| CrawlPolicy.HasKeyword | src/app/actions.ts:71-72 | the keyword test on the resolved URL as is and on the lower-cased link text; `CrawlPolicy.AnyKeyword` characterises it |
| CrawlPolicy.CapitalisedTextHasKeyword | src/app/actions.ts:71-72 | link text `CONTACT` passes the keyword test whatever the URL, since the text is lower-cased first |
| CrawlPolicy.LinkTarget | src/app/actions.ts:62-77 | a link is a target exactly when its trimmed href is non-empty and not `mailto:`, `javascript:` or `tel:`, it resolves against the page URL, the resolved hostname is the seed's, and the resolved href (as is) or the lower-cased text contains one of `contact`, `about`, `support`, `team`, `info`; the target is the resolved URL |
| CrawlPolicy.EligibleTargets | src/app/actions.ts:62-81 | every target of a page's links is on the seed's host |
| CrawlSpec.Visit | src/app/actions.ts:39-84 | one `crawl` call on the shared state; its properties are `CrawlSpec.VisitPreservesInv`, `CrawlSpec.VisitExtends`, `CrawlSpec.VisitDepthZero` and `CrawlSpec.CrawlDepthOne` |
| CrawlSpec.Follow | src/app/actions.ts:59-83 | the anchors of one page, in document order; its properties are `CrawlSpec.FollowPreservesInv`, `CrawlSpec.FollowExtends` and `CrawlSpec.FollowDepthOne` |
| CrawlSpec.Step | src/app/actions.ts:63-77 | the gate on one anchor and the child call; its properties are `CrawlSpec.StepPreservesInv`, `CrawlSpec.StepExtends` and `CrawlSpec.StepDepthOne` |
| CrawlSpec.VisitPreservesInv | src/app/actions.ts:39-84 | a crawl call never fetches a URL twice, keeps `visited` equal to the set of fetched URLs, keeps the emails duplicate-free, and fetches only on the seed's host |
| CrawlSpec.FollowPreservesInv | src/app/actions.ts:62-83 | the same invariant is kept across the links of one page |
| CrawlSpec.StepPreservesInv | src/app/actions.ts:68-77 | the same invariant is kept by the gate on one link |
| CrawlSpec.VisitExtends | src/app/actions.ts:39-84 | a crawl call only appends to the fetch log and to the emails, and the emails it adds are exactly those of the pages it fetched successfully |
| CrawlSpec.FollowExtends | src/app/actions.ts:62-83 | the same holds across the links of one page |
| CrawlSpec.StepExtends | src/app/actions.ts:68-77 | the same holds for one link |
| CrawlSpec.ExtendsTransitive | src/app/actions.ts:75-83 | two successive crawl calls extend the state like one |
| CrawlSpec.VisitDepthZero | src/app/actions.ts:40-57 | a call at depth 0 on an unvisited URL marks it visited and fetches it alone |
| CrawlSpec.FreshDistinct | src/app/actions.ts:70 | the unvisited targets are targets of the page, unvisited, each URL once, and no unvisited target is missed |
| CrawlSpec.FreshKeepsUnseen | src/app/actions.ts:70 | every link kept by the visited check is a target of the page and not yet visited |
| CrawlSpec.FreshNoRepeat | src/app/actions.ts:70 | the visited check lets no URL through twice |
| CrawlSpec.FreshCovers | src/app/actions.ts:70 | every target is either already visited or kept |
| CrawlSpec.FreshAppend | src/app/actions.ts:70 | skipping visited targets over two runs of links is skipping over the first, then over the second with what the first added |
| CrawlSpec.CrawlRun | src/app/actions.ts:31-87 | the crawl from the start URL with a fresh state, or nothing when `new URL(startUrl)` throws; its properties are `CrawlSpec.CrawlFetchesOnceOnSeedHost`, `CrawlSpec.CrawlEmailsFromFetchedPages` and the depth lemmas |
| CrawlSpec.CrawlEmails | src/app/actions.ts:31-92 | the result has no duplicates, and it is empty when the start URL does not parse |
| CrawlSpec.CrawlFetchesOnceOnSeedHost | src/app/actions.ts:36-45 | within one seed's crawl no URL is fetched twice, `visited` is the set of fetched URLs, and every fetched URL is on the seed's host |
| CrawlSpec.CrawlEmailsFromFetchedPages | src/app/actions.ts:45-53 | the crawl returns exactly the emails matched on the pages it fetched successfully, and each has the email shape |
| CrawlSpec.CrawlNegativeDepth | src/app/actions.ts:40-42 | a negative depth fetches nothing and finds nothing |
| CrawlSpec.CrawlDepthZero | src/app/actions.ts:50-57 | depth 0 fetches the seed alone and returns the distinct emails of its page |
| CrawlSpec.CrawlDepthOne | src/app/actions.ts:55-83 | depth 1 fetches the seed, then (when the seed page was fetched) each distinct eligible link other than the start URL once, in document order, and nothing else |
| Crawling.Crawler.constructor | src/app/actions.ts:36-37 | the crawl starts with nothing visited, nothing fetched and no emails |
| Crawling.Crawler.Crawl | src/app/actions.ts:39-84 | the in-place crawl keeps the state invariant and leaves exactly the state `CrawlSpec.Visit` specifies |
| Crawling.Crawler.AddEmails | src/app/actions.ts:51-53 | the loop of `emails.add` leaves the `Set` the insertion of the page's matches specifies |
| Crawling.Crawler.FollowLinks | src/app/actions.ts:62-83 | the loop over the anchors keeps the invariant and leaves the state `CrawlSpec.Follow` specifies |
| Crawling.TargetedCrawl | src/app/actions.ts:31-92 | the method returns the crawl's result as specified: nothing for a start URL that does not parse, otherwise the emails of the crawl from it |
| Batch.TrimNonBlank | src/app/actions.ts:100 | there are no seeds exactly when every line is empty or whitespace |
| Batch.TrimNonBlankOne | src/app/actions.ts:100 | one line gives its trim as its seed, or no seed when the trim is empty |
| Batch.TrimNonBlankAppend | src/app/actions.ts:100 | the seeds of consecutive runs of lines are the seeds of each run, in order; with `Batch.TrimNonBlankOne` this fixes the seeds of every input |
| Batch.Seeds | src/app/actions.ts:100 | the seeds of a text are the trimmed non-blank pieces of its `\n` split; `Batch.SeedsOfJoinedLines` and `Batch.ScrapeOutcomes` state them |
| Batch.SeedsAreTrimmed | src/app/actions.ts:100 | every seed is non-empty and has no whitespace at either end |
| Batch.TrimNonBlankKeepsTrimmed | src/app/actions.ts:100 | lines that are already trimmed and non-empty are kept, all and in order |
| Batch.SeedsOfJoinedLines | src/app/actions.ts:100 | a list of trimmed, non-empty, single-line URLs written one per line reads back as the same seeds |
| Batch.WithScheme | src/app/actions.ts:113-116 | the URL crawled starts with `http`; a seed that starts with `http` is kept, any other gets `https://` in front |
| Batch.WithSchemeIdempotent | src/app/actions.ts:113-116 | prefixing twice is prefixing once |
| Batch.WithSchemeKeepsHttpLookalike | src/app/actions.ts:114 | a host name that begins with `http` gets no scheme |
| Batch.SeedCrawl | src/app/actions.ts:113-117 | what each seed yields: `targetedCrawl` of the prefixed seed at depth 1; `Batch.RowsMembership` states it |
| Batch.SeedRows | src/app/actions.ts:126-131 | a seed's rows are its emails tagged with the seed as written; `Batch.PushRows` and `Batch.RowsMembership` state it |
| Batch.Rows | src/app/actions.ts:109-133 | the rows of all seeds, seed after seed; `Batch.RowsAppend`, `Batch.RowsMembership` and `Batch.ScrapeSeeds` state it |
| Batch.Tag | src/app/actions.ts:128-130 | one row per email of a seed, in order, each tagged with the seed as written |
| Batch.RowsAppend | src/app/actions.ts:109-133 | the rows of two runs of seeds are the rows of the first followed by those of the second |
| Batch.RowsMembership | src/app/actions.ts:126-132 | a row is produced exactly for each seed and each email that seed's crawl found (the crawl of the prefixed seed at depth 1, `Batch.SeedCrawl`); a seed whose crawl found nothing has no row |
| Batch.ScrapeSpec | src/app/actions.ts:95-136 | the outcome of the action as a function of the web and the text; `Batch.ScrapeOutcomes` and `Batch.ScrapeEmails` state it |
| Batch.ScrapeOutcomes | src/app/actions.ts:96-135 | empty input fails with the empty-file message, input whose lines are all blank fails with the no-URLs message, and anything else succeeds |
| Batch.Chunks | src/app/actions.ts:109-110 | the chunks together are the seeds in order, each has 1 to 10 seeds, and all but the last have exactly 10 |
| Batch.ChunksCount | src/app/actions.ts:109 | the number of chunks is the least `n` with `10 n` at least the number of seeds |
| Batch.TwentyFiveSeedsThreeChunks | src/app/actions.ts:109-110 | 25 seeds are crawled in 3 chunks |
| Batch.ChunksUnfold | src/app/actions.ts:110 | the first chunk is the first 10 seeds, or all of them when fewer remain |
| Batch.ChunksStep | src/app/actions.ts:109-110 | one turn of the loop walks the first chunk of the seeds not yet walked |
| Batch.RowsStep | src/app/actions.ts:109-133 | one turn of the loop adds the rows of the chunk after those of the seeds before it |
| Batch.ScrapeEmails | src/app/actions.ts:95-136 | the action returns the outcome above, and on success the rows of every seed, seed after seed, having walked exactly the chunks of 10 |
| Batch.ScrapeSeeds | src/app/actions.ts:106-133 | the loop with `i += 10` produces the rows of every seed, seed after seed, and walks exactly the chunks of 10 |
| Batch.CrawlChunk | src/app/actions.ts:111-124 | each seed of a chunk is settled, in chunk order, with the crawl of its prefixed URL and the seed as written |
| Batch.PushRows | src/app/actions.ts:126-132 | the settled results append the rows of the chunk's seeds, seed after seed |
| Batch.PushSeedRows | src/app/actions.ts:128-130 | one seed's emails append one row each, in order |
| Format.EmailsOf | src/app/actions.ts:144 | one email per row, in row order |
| Format.UniqueEmails | src/app/actions.ts:144 | the formatter receives each email of the rows once, and no other |
| Format.UniqueEmailsSnoc | src/app/actions.ts:144 | the formatter receives the emails in order of first occurrence among the rows |
| Format.KeepListed | src/app/actions.ts:147-148 | the kept rows are a subsequence of the rows, and a row is kept exactly when its email is in the formatter's output |
| Format.KeepListedCount | src/app/actions.ts:148 | a kept row is kept as many times as it occurs |
| Format.KeepListedIdempotent | src/app/actions.ts:147-148 | filtering by the same output twice is filtering once |
| Format.KeepListedNone | src/app/actions.ts:147-148 | an empty output keeps no row |
| Format.KeepListedAll | src/app/actions.ts:147-148 | an output listing every email keeps every row, in place |
| Format.FormatEmails | src/app/actions.ts:138-155 | no rows fail with the no-emails message; a failing formatter fails with the formatting message; otherwise the result is the subsequence of the rows whose email the formatter returned |
| Format.FormatterKeepingAllKeepsRows | src/app/actions.ts:144-150 | a formatter that returns every email it received gives back all the rows |
| Format.FormatterReturningNothing | src/app/actions.ts:147-150 | a formatter that returns no emails gives success with no rows |

## Left out

- Network I/O in `getPage` is left out. The request headers, the 5-second timeout and exceptions
  collapse into the `HttpOutcome` the `Web` returns. Fetching the same URL twice is assumed to give
  the same outcome.
- HTML parsing is foreign code. The anchors of a page are a parameter of the web.
- URL parsing and resolution follow section 4.4 of the WHATWG URL Standard. They are foreign code and
  become partial functions that return `href` and `hostname`.
- Concurrency of `Promise.all` is left out. Sibling crawls run one after the other, in document
  order, each to completion before the next starts. At depth 1 this gives exactly the fetches of the
  code. At depth 2 or more it does not: in the code every sibling `crawl` call marks its URL visited
  synchronously, before any child page is processed, whereas the model's depth-first order lets a
  child's links be followed before its later siblings are marked. That order is not one the code can
  produce, and the set of pages fetched can differ: a page that the code reaches as a sibling can be
  reached first through an earlier sibling's child in the model, with less depth left, so its own
  links are then not followed. The batch crawls at depth 1 only.
- CrawlSpec.CrawlEmails: lists the emails in the order a sequential crawl meets them. The code
  inserts the emails of sibling pages in the order their fetches complete. Which emails are returned
  is exact (`CrawlSpec.CrawlEmailsFromFetchedPages`); their order across pages is not modelled.
- Text.ToLower: lower-cases ASCII letters only. JavaScript's `toLowerCase` also maps non-ASCII
  capitals. A keyword is plain ASCII, but a capital letter outside ASCII whose lower case is ASCII
  (the Kelvin sign) is not mapped.
- Strings are sequences of Unicode characters, not UTF-16 code units. Everything here looks at ASCII
  characters and at the whitespace set of `trim`, so the difference does not arise.
- The `catch` around each seed in the chunk returns a `Failed to process` entry. It cannot be reached
  because `targetedCrawl` catches every exception itself. It is left out, and its entry would add no
  rows anyway.
- `null`/`undefined` inputs to the actions are left out. An input list or text here is always a value,
  so `!fileContent` and `!emails` reduce to emptiness.
- Logging (`console.error`) is left out.
- `URL_RE` is not used by the code and is not modelled.
- The formatting flow, an LLM prompt, is not part of this model. It is a parameter that returns a
  list of emails or fails.
- The user interface and its CSV download are not part of this model.
