/**
 * `targetedCrawl` as the source runs it: the inner `crawl` updates the
 * `visited` and `emails` sets it shares with its recursive calls.
 */
module Crawling {
  import opened Wrappers
  import opened Seqs
  import opened Fetch
  import opened CrawlPolicy
  import opened CrawlSpec

  /** The state of one seed's crawl. */
  class Crawler {
    const web: Web
    const baseDomain: string      // `parsedStart.hostname`
    var visited: set<string>
    var emails: seq<string>       // a `Set`, in insertion order
    ghost var fetched: seq<Url>   // every URL handed to `getPage`, in call order

    ghost function State(): CrawlState
      reads this
    {
      CrawlState(visited, emails, fetched)
    }

    /** No URL fetched twice, `visited` is the set of fetched URLs, all on the seed's host. */
    ghost predicate Valid()
      reads this
    {
      Inv(baseDomain, State())
    }

    constructor (web: Web, baseDomain: string)
      ensures this.web == web && this.baseDomain == baseDomain
      ensures State() == Initial && Valid()
    {
      this.web := web;
      this.baseDomain := baseDomain;
      visited := {};
      emails := [];
      fetched := [];
    }

    /** `crawl(t.href, depth)` */
    method Crawl(t: Url, depth: int)
      requires Valid() && t.hostname == baseDomain
      modifies this
      ensures Valid()
      ensures State() == Visit(web, baseDomain, t, depth, old(State()))
      decreases Rank(depth), 1
    {
      if depth < 0 || t.href in visited {
        return;
      }
      EnterPreservesInv(baseDomain, t, State());
      visited := visited + {t.href};
      fetched := fetched + [t];

      var page := FetchPage(web, t.href);
      if page.None? {
        return;
      }
      AddEmails(page.value.emails);
      if depth == 0 {
        return;
      }
      FollowLinks(t.href, page.value.anchors, depth);
    }

    /** `for (const email of emailsInPage) emails.add(email)` */
    method AddEmails(found: seq<string>)
      requires Valid()
      modifies this`emails
      ensures Valid()
      ensures emails == AddAll(old(emails), found)
    {
      for i := 0 to |found|
        invariant NoDup(emails)
        invariant AddAll(emails, found[i..]) == AddAll(old(emails), found)
      {
        assert found[i..][1..] == found[i + 1..];
        if found[i] !in emails {
          emails := emails + [found[i]];
        }
      }
    }

    /** The `$('a[href]').each(...)` loop of the page at `pageUrl`, each child crawled in turn. */
    method FollowLinks(pageUrl: string, anchors: seq<Anchor>, depth: nat)
      requires Valid()
      modifies this
      ensures Valid()
      ensures State() == Follow(web, baseDomain, pageUrl, anchors, depth, old(State()))
      decreases Rank(depth), 0
    {
      ghost var target := Follow(web, baseDomain, pageUrl, anchors, depth, State());
      for i := 0 to |anchors|
        invariant Valid()
        invariant Follow(web, baseDomain, pageUrl, anchors[i..], depth, State()) == target
      {
        assert anchors[i..][1..] == anchors[i + 1..];
        var link := LinkTarget(web, baseDomain, pageUrl, anchors[i]);
        if link.Some? && link.value.href !in visited {
          Crawl(link.value, depth - 1);
        }
      }
    }
  }

  /** `targetedCrawl(startUrl, depth)` */
  method TargetedCrawl(web: Web, startUrl: string, depth: int) returns (found: seq<string>)
    ensures found == CrawlEmails(web, startUrl, depth)
  {
    var start := web.parse(startUrl);
    if start.None? {
      return [];
    }
    var crawler := new Crawler(web, start.value.hostname);
    crawler.Crawl(Url(startUrl, start.value.hostname), depth);
    found := crawler.emails;
  }
}
