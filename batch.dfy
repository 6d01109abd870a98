/**
 * `scrapeEmailsAction`: the input text becomes seeds, the seeds are crawled
 * in chunks of `MaxConcurrentScrapes`, and the results become rows.
 */
module Batch {
  import opened Wrappers
  import opened Seqs
  import Text
  import opened Fetch
  import opened CrawlSpec
  import Crawling

  const MaxConcurrentScrapes: nat := 10
  const CrawlDepth: int := 1
  const EmptyFileError: string := "The uploaded file is empty."
  const NoUrlsError: string := "No valid URLs found in the file."

  /** One result row: the seed as the user wrote it, and one email found for it. */
  datatype Row = Row(website: string, email: string)

  /** Every line is empty or whitespace. */
  predicate AllBlank(lines: seq<string>) {
    forall k :: 0 <= k < |lines| ==> Text.AllWhitespace(lines[k])
  }

  /** `lines.map(u => u.trim()).filter(Boolean)` */
  function TrimNonBlank(lines: seq<string>): (r: seq<string>)
    ensures r == [] <==> AllBlank(lines)
  {
    if lines == [] then []
    else
      var t := Text.Trim(lines[0]);
      var rest := TrimNonBlank(lines[1..]);
      AllBlankCons(lines);
      if t == "" then rest else [t] + rest
  }

  /** Every seed is non-empty and has no whitespace at either end. */
  lemma {:induction false} SeedsAreTrimmed(lines: seq<string>)
    ensures forall k :: 0 <= k < |TrimNonBlank(lines)| ==>
      TrimNonBlank(lines)[k] != "" && Text.IsTrimmed(TrimNonBlank(lines)[k])
  {
    if lines != [] {
      SeedsAreTrimmed(lines[1..]);
      var t := Text.Trim(lines[0]);
      var rest := TrimNonBlank(lines[1..]);
      if t != "" {
        var r := [t] + rest;
        assert TrimNonBlank(lines) == r;
        forall k | 0 <= k < |r| ensures r[k] != "" && Text.IsTrimmed(r[k]) {
          if k > 0 {
            assert r[k] == rest[k - 1];
          }
        }
      }
    }
  }

  /** One line gives its trim, or nothing when the trim is empty. */
  lemma TrimNonBlankOne(line: string)
    ensures TrimNonBlank([line]) == if Text.Trim(line) == "" then [] else [Text.Trim(line)]
  {
    assert [line][1..] == [];
  }

  /** Seeds of consecutive runs of lines are the seeds of each run, in order. */
  lemma {:induction false} TrimNonBlankAppend(a: seq<string>, b: seq<string>)
    ensures TrimNonBlank(a + b) == TrimNonBlank(a) + TrimNonBlank(b)
  {
    if a == [] {
      assert a + b == b;
    } else {
      var ab := a + b;
      assert ab[0] == a[0] && ab[1..] == a[1..] + b;
      TrimNonBlankAppend(a[1..], b);
      TrimNonBlankCons(a);
      TrimNonBlankCons(ab);
      assert TrimNonBlankHead(ab) == TrimNonBlankHead(a);
      AppendAssoc(TrimNonBlankHead(a), TrimNonBlank(a[1..]), TrimNonBlank(b));
    }
  }

  /** What the first line contributes. */
  function TrimNonBlankHead(lines: seq<string>): seq<string>
    requires lines != []
  {
    var t := Text.Trim(lines[0]);
    if t == "" then [] else [t]
  }

  lemma TrimNonBlankCons(lines: seq<string>)
    requires lines != []
    ensures TrimNonBlank(lines) == TrimNonBlankHead(lines) + TrimNonBlank(lines[1..])
  {
    var rest := TrimNonBlank(lines[1..]);
    if Text.Trim(lines[0]) == "" {
      assert TrimNonBlank(lines) == rest;
      assert [] + rest == rest;
    } else {
      assert TrimNonBlank(lines) == [Text.Trim(lines[0])] + rest;
    }
  }

  lemma AppendAssoc<T>(x: seq<T>, y: seq<T>, z: seq<T>)
    ensures x + (y + z) == (x + y) + z
  {
  }

  lemma AllBlankCons(lines: seq<string>)
    requires lines != []
    ensures AllBlank(lines) <==> Text.AllWhitespace(lines[0]) && AllBlank(lines[1..])
  {
    assert forall k :: 1 <= k < |lines| ==> lines[k] == lines[1..][k - 1];
  }

  /** The seeds of an input text: its trimmed, non-blank lines, in order. */
  function Seeds(content: string): seq<string> {
    TrimNonBlank(Text.SplitLines(content))
  }

  /** A list of trimmed, non-empty, single-line URLs written one per line reads back unchanged. */
  lemma SeedsOfJoinedLines(urls: seq<string>)
    requires |urls| >= 1
    requires forall k :: 0 <= k < |urls| ==> urls[k] != "" && Text.IsTrimmed(urls[k]) && '\n' !in urls[k]
    ensures Seeds(Text.JoinLines(urls)) == urls
  {
    Text.SplitJoinLines(urls);
    TrimNonBlankKeepsTrimmed(urls);
  }

  lemma {:induction false} TrimNonBlankKeepsTrimmed(lines: seq<string>)
    requires forall k :: 0 <= k < |lines| ==> lines[k] != "" && Text.IsTrimmed(lines[k])
    ensures TrimNonBlank(lines) == lines
  {
    if lines != [] {
      TrimNonBlankKeepsTrimmed(lines[1..]);
      Text.TrimOfTrimmed(lines[0]);
      assert lines == [lines[0]] + lines[1..];
    }
  }

  /** The `https://` prefix for a seed that does not start with `http`. */
  function WithScheme(url: string): (r: string)
    ensures Text.StartsWith(r, "http")
    ensures Text.StartsWith(url, "http") ==> r == url
    ensures !Text.StartsWith(url, "http") ==> r == "https://" + url
  {
    if Text.StartsWith(url, "http") then url else "https://" + url
  }

  /** Prefixing is idempotent. */
  lemma WithSchemeIdempotent(url: string)
    ensures WithScheme(WithScheme(url)) == WithScheme(url)
  {
  }

  /** The test is on the four letters only: a host that begins with `http` gets no scheme. */
  lemma WithSchemeKeepsHttpLookalike()
    ensures WithScheme("httpbin.org") == "httpbin.org"
  {
    assert "httpbin.org"[..4] == "http";
  }

  /** `emails.forEach(email => results.push({ website, email }))` */
  function Tag(website: string, emails: seq<string>): (r: seq<Row>)
    ensures |r| == |emails|
    ensures forall k :: 0 <= k < |r| ==> r[k] == Row(website, emails[k])
  {
    if emails == [] then [] else [Row(website, emails[0])] + Tag(website, emails[1..])
  }

  /** What the crawl of each seed finds: `targetedCrawl` of the prefixed seed at depth 1. */
  function SeedCrawl(w: Web): string -> seq<string> {
    seed => CrawlEmails(w, WithScheme(seed), CrawlDepth)
  }

  /** The rows of one seed, tagged with the seed as written, in the order its crawl `found` them. */
  function SeedRows(found: string -> seq<string>, seed: string): seq<Row> {
    Tag(seed, found(seed))
  }

  /** The rows of all seeds, seed after seed. */
  function Rows(found: string -> seq<string>, seeds: seq<string>): seq<Row> {
    if seeds == [] then [] else SeedRows(found, seeds[0]) + Rows(found, seeds[1..])
  }

  lemma {:induction false} RowsAppend(found: string -> seq<string>, a: seq<string>, b: seq<string>)
    ensures Rows(found, a + b) == Rows(found, a) + Rows(found, b)
  {
    if a == [] {
      assert a + b == b;
    } else {
      assert (a + b)[0] == a[0] && (a + b)[1..] == a[1..] + b;
      RowsAppend(found, a[1..], b);
    }
  }

  lemma RowsSnoc(found: string -> seq<string>, seeds: seq<string>, seed: string)
    ensures Rows(found, seeds + [seed]) == Rows(found, seeds) + SeedRows(found, seed)
  {
    RowsAppend(found, seeds, [seed]);
    assert Rows(found, [seed]) == SeedRows(found, seed) + Rows(found, []);
  }

  lemma RowsPrefixStep(found: string -> seq<string>, results: seq<Row>, seeds: seq<string>, j: nat)
    requires j < |seeds|
    ensures results + Rows(found, seeds[..j + 1]) == results + Rows(found, seeds[..j]) + SeedRows(found, seeds[j])
  {
    assert seeds[..j + 1] == seeds[..j] + [seeds[j]];
    RowsSnoc(found, seeds[..j], seeds[j]);
  }

  /**
   * A row is produced exactly for each seed and each email its crawl found;
   * a seed whose crawl found nothing has no row.
   */
  lemma {:induction false} RowsMembership(found: string -> seq<string>, seeds: seq<string>, row: Row)
    ensures row in Rows(found, seeds) <==> row.website in seeds && row.email in found(row.website)
  {
    if seeds != [] {
      RowsMembership(found, seeds[1..], row);
      var mine := SeedRows(found, seeds[0]);
      var emails := found(seeds[0]);
      assert row in mine <==> row.website == seeds[0] && row.email in emails by {
        if row in mine {
          var k :| 0 <= k < |mine| && mine[k] == row;
        }
        if row.website == seeds[0] && row.email in emails {
          var k :| 0 <= k < |emails| && emails[k] == row.email;
          assert mine[k] == row;
        }
      }
    }
  }

  /** `scrapeEmailsAction(fileContent)` */
  function ScrapeSpec(w: Web, content: string): Outcome<seq<Row>> {
    if content == "" then Failure(EmptyFileError)
    else if Seeds(content) == [] then Failure(NoUrlsError)
    else Success(Rows(SeedCrawl(w), Seeds(content)))
  }

  /**
   * Empty input fails with the empty-file message, input whose lines are all
   * blank fails with the no-URLs message, and anything else succeeds.
   */
  lemma ScrapeOutcomes(w: Web, content: string)
    ensures ScrapeSpec(w, content) == Failure(EmptyFileError) <==> content == ""
    ensures ScrapeSpec(w, content) == Failure(NoUrlsError) <==>
      content != "" && AllBlank(Text.SplitLines(content))
    ensures ScrapeSpec(w, content).Success? <==> content != "" && Seeds(content) != []
  {
    assert EmptyFileError != NoUrlsError by {
      assert EmptyFileError[0] == 'T' && NoUrlsError[0] == 'N';
    }
    if content == "" {
      assert ScrapeSpec(w, content) == Failure(EmptyFileError);
    } else if Seeds(content) == [] {
      assert ScrapeSpec(w, content) == Failure(NoUrlsError);
    } else {
      assert ScrapeSpec(w, content).Success?;
    }
  }

  /** Consecutive pieces of at most `size` elements; only the last may be shorter. */
  function Chunks<T>(s: seq<T>, size: nat): (r: seq<seq<T>>)
    requires size > 0
    ensures Flatten(r) == s
    ensures forall k :: 0 <= k < |r| ==> 0 < |r[k]| <= size
    ensures forall k :: 0 <= k < |r| - 1 ==> |r[k]| == size
    decreases |s|
  {
    if s == [] then []
    else
      var m := if |s| < size then |s| else size;
      var rest := Chunks(s[m..], size);
      assert ([s[..m]] + rest)[1..] == rest;
      assert s[..m] + s[m..] == s;
      [s[..m]] + rest
  }

  /** The number of chunks is the least `n` with `n * size >= |s|`. */
  lemma {:induction false} ChunksCount<T>(s: seq<T>, size: nat)
    requires size > 0
    ensures |s| <= |Chunks(s, size)| * size < |s| + size
    decreases |s|
  {
    if s != [] {
      var m := if |s| < size then |s| else size;
      ChunksCount(s[m..], size);
      var n := |Chunks(s[m..], size)|;
      assert |Chunks(s, size)| == n + 1;
      assert (n + 1) * size == n * size + size;
    }
  }

  /** With 25 seeds the loop runs three chunks. */
  lemma TwentyFiveSeedsThreeChunks(seeds: seq<string>)
    requires |seeds| == 25
    ensures |Chunks(seeds, MaxConcurrentScrapes)| == 3
  {
    ChunksCount(seeds, MaxConcurrentScrapes);
  }

  /** One turn of the chunk loop adds the chunk's rows after those of the seeds before it. */
  lemma RowsStep(found: string -> seq<string>, urls: seq<string>, i: nat, end: nat)
    requires i <= end <= |urls|
    ensures Rows(found, urls[..i]) + Rows(found, urls[i..end]) == Rows(found, urls[..end])
  {
    RowsAppend(found, urls[..i], urls[i..end]);
    assert urls[..i] + urls[i..end] == urls[..end];
  }

  /** One turn of the chunk loop walks the first chunk of the seeds not yet walked. */
  lemma ChunksStep(urls: seq<string>, i: nat, end: nat, chunks: seq<seq<string>>)
    requires i < end <= |urls|
    requires end == i + MaxConcurrentScrapes || end == |urls| < i + MaxConcurrentScrapes
    requires chunks + Chunks(urls[i..], MaxConcurrentScrapes) == Chunks(urls, MaxConcurrentScrapes)
    ensures (chunks + [urls[i..end]]) + Chunks(urls[end..], MaxConcurrentScrapes) == Chunks(urls, MaxConcurrentScrapes)
  {
    var rest := urls[i..];
    var chunk := urls[i..end];
    var later := Chunks(urls[end..], MaxConcurrentScrapes);
    ChunksUnfold(rest, MaxConcurrentScrapes, end - i);
    assert rest[..end - i] == chunk;
    assert rest[end - i..] == urls[end..];
    assert Chunks(rest, MaxConcurrentScrapes) == [chunk] + later;
    AppendShift(chunks, Chunks(rest, MaxConcurrentScrapes), chunk, later, Chunks(urls, MaxConcurrentScrapes));
  }

  lemma AppendShift<T>(front: seq<T>, tail: seq<T>, x: T, later: seq<T>, all: seq<T>)
    requires front + tail == all && tail == [x] + later
    ensures (front + [x]) + later == all
  {
    assert (front + [x]) + later == front + ([x] + later);
  }

  /** The first chunk is the first `size` elements, or all of them when fewer remain. */
  lemma ChunksUnfold<T>(s: seq<T>, size: nat, m: nat)
    requires s != [] && size > 0
    requires m == if |s| < size then |s| else size
    ensures Chunks(s, size) == [s[..m]] + Chunks(s[m..], size)
  {
  }

  /** The outcome of one seed's crawl inside `Promise.all`. */
  datatype Settled = Settled(url: string, emails: seq<string>)

  /** `scrapeEmailsAction(fileContent)`; `chunks` records the slices the loop walked. */
  method ScrapeEmails(web: Web, fileContent: string) returns (r: Outcome<seq<Row>>, ghost chunks: seq<seq<string>>)
    ensures r == ScrapeSpec(web, fileContent)
    ensures r.Success? ==> chunks == Chunks(Seeds(fileContent), MaxConcurrentScrapes)
  {
    chunks := [];
    if fileContent == "" {
      return Failure(EmptyFileError), chunks;
    }
    var urls := Seeds(fileContent);
    if |urls| == 0 {
      return Failure(NoUrlsError), chunks;
    }
    var results;
    results, chunks := ScrapeSeeds(web, urls);
    return Success(results), chunks;
  }

  /** The chunk loop `for (let i = 0; i < urls.length; i += MAX_CONCURRENT_SCRAPES)`. */
  method ScrapeSeeds(web: Web, urls: seq<string>) returns (results: seq<Row>, ghost chunks: seq<seq<string>>)
    ensures results == Rows(SeedCrawl(web), urls)
    ensures chunks == Chunks(urls, MaxConcurrentScrapes)
  {
    ghost var found := SeedCrawl(web);
    results := [];
    chunks := [];
    var i := 0;
    ghost var done := 0;
    while i < |urls|
      invariant done == (if i < |urls| then i else |urls|)
      invariant results == Rows(found, urls[..done])
      invariant chunks + Chunks(urls[done..], MaxConcurrentScrapes) == Chunks(urls, MaxConcurrentScrapes)
      decreases |urls| - i
    {
      var end := if i + MaxConcurrentScrapes < |urls| then i + MaxConcurrentScrapes else |urls|;
      var chunk := urls[i..end];
      RowsStep(found, urls, i, end);
      ChunksStep(urls, i, end, chunks);
      var settled := CrawlChunk(web, chunk);
      results := PushRows(found, results, settled, chunk);
      chunks := chunks + [chunk];
      i := i + MaxConcurrentScrapes;
      done := end;
    }
    assert urls[..|urls|] == urls;
    assert urls[|urls|..] == [];
  }

  /** Entry `k` holds seed `k` of the chunk, as written, and what its crawl found. */
  predicate SettledFor(found: string -> seq<string>, chunk: seq<string>, settled: seq<Settled>) {
    && |settled| == |chunk|
    && forall k :: 0 <= k < |chunk| ==> settled[k] == Settled(chunk[k], found(chunk[k]))
  }

  /** `await Promise.all(chunk.map(...))`: each seed prefixed and crawled, results in chunk order. */
  method CrawlChunk(web: Web, chunk: seq<string>) returns (settled: seq<Settled>)
    ensures SettledFor(SeedCrawl(web), chunk, settled)
  {
    settled := [];
    for j := 0 to |chunk|
      invariant |settled| == j
      invariant forall k :: 0 <= k < j ==>
        settled[k] == Settled(chunk[k], CrawlEmails(web, WithScheme(chunk[k]), CrawlDepth))
    {
      var url := chunk[j];
      var prefixedUrl := WithScheme(url);
      var emails := Crawling.TargetedCrawl(web, prefixedUrl, CrawlDepth);
      settled := settled + [Settled(url, emails)];
    }
  }

  /** The `for (const result of settledResults)` loop: one row per email, seed after seed. */
  method PushRows(ghost found: string -> seq<string>, results: seq<Row>, settled: seq<Settled>, ghost chunk: seq<string>)
    returns (r: seq<Row>)
    requires SettledFor(found, chunk, settled)
    ensures r == results + Rows(found, chunk)
  {
    r := results;
    for j := 0 to |settled|
      invariant r == results + Rows(found, chunk[..j])
    {
      var result := settled[j];
      ghost var before := r;
      if |result.emails| > 0 {
        r := PushSeedRows(r, result.url, result.emails);
      }
      assert r == before + SeedRows(found, chunk[j]);
      RowsPrefixStep(found, results, chunk, j);
    }
    assert chunk[..|chunk|] == chunk;
  }

  /** `result.emails.forEach(email => results.push({ website: result.url, email }))` */
  method PushSeedRows(results: seq<Row>, url: string, emails: seq<string>) returns (r: seq<Row>)
    ensures r == results + Tag(url, emails)
  {
    r := results;
    for k := 0 to |emails|
      invariant r == results + Tag(url, emails[..k])
    {
      assert emails[..k + 1] == emails[..k] + [emails[k]];
      TagSnoc(url, emails[..k], emails[k]);
      r := r + [Row(url, emails[k])];
    }
    assert emails[..|emails|] == emails;
  }

  lemma TagSnoc(website: string, emails: seq<string>, e: string)
    ensures Tag(website, emails + [e]) == Tag(website, emails) + [Row(website, e)]
  {
  }
}
