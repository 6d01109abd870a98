/**
 * The targeted crawl as a function of the state it shares between calls.
 * Sibling links are followed one after the other in document order; each
 * call marks its URL visited before it fetches, as `crawl` does before its
 * first `await`.
 */
module CrawlSpec {
  import opened Wrappers
  import opened Seqs
  import opened Fetch
  import opened CrawlPolicy
  import EmailPattern

  /**
   * The per-seed `visited` set, the `emails` set in insertion order, and
   * the log of every URL handed to `getPage` (with its hostname).
   */
  datatype CrawlState = CrawlState(visited: set<string>, emails: seq<string>, fetched: seq<Url>)

  const Initial: CrawlState := CrawlState({}, [], [])

  function Rank(depth: int): nat { if depth < 0 then 0 else depth + 1 }

  /** `crawl(t.href, depth)` */
  function Visit(w: Web, base: string, t: Url, depth: int, s: CrawlState): CrawlState
    decreases Rank(depth), 1
  {
    if depth < 0 || t.href in s.visited then s
    else
      var entered := s.(visited := s.visited + {t.href}, fetched := s.fetched + [t]);
      match FetchPage(w, t.href)
      case None => entered
      case Some(page) =>
        var collected := entered.(emails := AddAll(entered.emails, page.emails));
        if depth == 0 then collected
        else Follow(w, base, t.href, page.anchors, depth, collected)
  }

  /** The `$('a[href]').each(...)` loop of the page at `pageUrl`, children run in order. */
  function Follow(w: Web, base: string, pageUrl: string, anchors: seq<Anchor>, depth: nat, s: CrawlState): CrawlState
    decreases Rank(depth), 0, |anchors|
  {
    if anchors == [] then s
    else Follow(w, base, pageUrl, anchors[1..], depth, Step(w, base, pageUrl, anchors[0], depth, s))
  }

  /** One anchor: `crawl(newUrl.href, depth - 1)` when the link is eligible and not yet visited. */
  function Step(w: Web, base: string, pageUrl: string, a: Anchor, depth: nat, s: CrawlState): CrawlState
    decreases Rank(depth), 0, 0
  {
    match LinkTarget(w, base, pageUrl, a)
    case Some(u) => if u.href !in s.visited then Visit(w, base, u, depth - 1, s) else s
    case None => s
  }

  function HrefSet(us: seq<Url>): set<string> {
    set u | u in us :: u.href
  }

  /**
   * The crawl state invariant: no URL was fetched twice, `visited` is
   * exactly the set of fetched URLs, `emails` has no duplicates, and every
   * fetched URL is on the seed's host.
   */
  ghost predicate Inv(base: string, s: CrawlState) {
    && (forall i, j :: 0 <= i < j < |s.fetched| ==> s.fetched[i].href != s.fetched[j].href)
    && s.visited == HrefSet(s.fetched)
    && NoDup(s.emails)
    && (forall i :: 0 <= i < |s.fetched| ==> s.fetched[i].hostname == base)
  }

  /** Marking a new URL of the seed's host visited and fetched keeps the invariant. */
  lemma EnterPreservesInv(base: string, t: Url, s: CrawlState)
    requires Inv(base, s) && t.hostname == base && t.href !in s.visited
    ensures Inv(base, s.(visited := s.visited + {t.href}, fetched := s.fetched + [t]))
  {
    assert HrefSet(s.fetched + [t]) == HrefSet(s.fetched) + {t.href};
  }

  lemma {:induction false} VisitPreservesInv(w: Web, base: string, t: Url, depth: int, s: CrawlState)
    requires Inv(base, s) && t.hostname == base
    ensures Inv(base, Visit(w, base, t, depth, s))
    decreases Rank(depth), 1
  {
    if depth >= 0 && t.href !in s.visited {
      var entered := s.(visited := s.visited + {t.href}, fetched := s.fetched + [t]);
      EnterPreservesInv(base, t, s);
      match FetchPage(w, t.href)
      case None =>
      case Some(page) =>
        var collected := entered.(emails := AddAll(entered.emails, page.emails));
        if depth != 0 {
          FollowPreservesInv(w, base, t.href, page.anchors, depth, collected);
        }
    }
  }

  lemma {:induction false} FollowPreservesInv(w: Web, base: string, pageUrl: string, anchors: seq<Anchor>, depth: nat, s: CrawlState)
    requires Inv(base, s)
    ensures Inv(base, Follow(w, base, pageUrl, anchors, depth, s))
    decreases Rank(depth), 0, |anchors|
  {
    if anchors != [] {
      StepPreservesInv(w, base, pageUrl, anchors[0], depth, s);
      FollowPreservesInv(w, base, pageUrl, anchors[1..], depth, Step(w, base, pageUrl, anchors[0], depth, s));
    }
  }

  lemma {:induction false} StepPreservesInv(w: Web, base: string, pageUrl: string, a: Anchor, depth: nat, s: CrawlState)
    requires Inv(base, s)
    ensures Inv(base, Step(w, base, pageUrl, a, depth, s))
    decreases Rank(depth), 0, 0
  {
    match LinkTarget(w, base, pageUrl, a)
    case Some(u) =>
      if u.href !in s.visited {
        VisitPreservesInv(w, base, u, depth - 1, s);
      }
    case None =>
  }

  /** The emails matched on the pages of `us` that were fetched successfully. */
  ghost function PagesEmails(w: Web, us: seq<Url>): set<string> {
    if us == [] then {} else PageEmails(w, us[0]) + PagesEmails(w, us[1..])
  }

  ghost function PageEmails(w: Web, u: Url): set<string> {
    match FetchPage(w, u.href)
    case None => {}
    case Some(p) => set e | e in p.emails
  }

  lemma {:induction false} PagesEmailsAppend(w: Web, a: seq<Url>, b: seq<Url>)
    ensures PagesEmails(w, a + b) == PagesEmails(w, a) + PagesEmails(w, b)
  {
    if a == [] {
      assert a + b == b;
    } else {
      assert (a + b)[0] == a[0];
      assert (a + b)[1..] == a[1..] + b;
      PagesEmailsAppend(w, a[1..], b);
    }
  }

  /** Every email of a successfully fetched page has the pattern's shape. */
  lemma {:induction false} PagesEmailsShape(w: Web, us: seq<Url>, e: string)
    requires e in PagesEmails(w, us)
    ensures EmailPattern.EmailShape(e)
  {
    if e !in PageEmails(w, us[0]) {
      PagesEmailsShape(w, us[1..], e);
    }
  }

  /**
   * `r` continues `s`: the fetch log and the email list only grow at the end,
   * and the emails gained are exactly those of the pages fetched since.
   */
  ghost predicate Extends(w: Web, s: CrawlState, r: CrawlState) {
    && |s.fetched| <= |r.fetched| && r.fetched[..|s.fetched|] == s.fetched
    && |s.emails| <= |r.emails| && r.emails[..|s.emails|] == s.emails
    && (forall e :: e in r.emails <==> e in s.emails || e in PagesEmails(w, r.fetched[|s.fetched|..]))
  }

  lemma ExtendsTransitive(w: Web, s: CrawlState, m: CrawlState, r: CrawlState)
    requires Extends(w, s, m) && Extends(w, m, r)
    ensures Extends(w, s, r)
  {
    assert r.fetched[|s.fetched|..] == m.fetched[|s.fetched|..] + r.fetched[|m.fetched|..] by {
      assert r.fetched[..|m.fetched|] == m.fetched;
    }
    PagesEmailsAppend(w, m.fetched[|s.fetched|..], r.fetched[|m.fetched|..]);
    assert r.emails[..|s.emails|] == m.emails[..|s.emails|] by {
      assert r.emails[..|m.emails|] == m.emails;
    }
    assert r.fetched[..|s.fetched|] == m.fetched[..|s.fetched|] by {
      assert r.fetched[..|m.fetched|] == m.fetched;
    }
  }

  lemma {:induction false} VisitExtends(w: Web, base: string, t: Url, depth: int, s: CrawlState)
    ensures Extends(w, s, Visit(w, base, t, depth, s))
    decreases Rank(depth), 1
  {
    if depth < 0 || t.href in s.visited {
      assert s.fetched[|s.fetched|..] == [];
    } else {
      var entered := s.(visited := s.visited + {t.href}, fetched := s.fetched + [t]);
      assert entered.fetched[|s.fetched|..] == [t];
      assert [t][1..] == [];
      match FetchPage(w, t.href)
      case None =>
        assert Extends(w, s, entered);
      case Some(page) =>
        var collected := entered.(emails := AddAll(entered.emails, page.emails));
        assert Extends(w, s, collected);
        if depth != 0 {
          FollowExtends(w, base, t.href, page.anchors, depth, collected);
          ExtendsTransitive(w, s, collected, Visit(w, base, t, depth, s));
        }
    }
  }

  lemma {:induction false} FollowExtends(w: Web, base: string, pageUrl: string, anchors: seq<Anchor>, depth: nat, s: CrawlState)
    ensures Extends(w, s, Follow(w, base, pageUrl, anchors, depth, s))
    decreases Rank(depth), 0, |anchors|
  {
    if anchors == [] {
      assert s.fetched[|s.fetched|..] == [];
    } else {
      var next := Step(w, base, pageUrl, anchors[0], depth, s);
      StepExtends(w, base, pageUrl, anchors[0], depth, s);
      FollowExtends(w, base, pageUrl, anchors[1..], depth, next);
      ExtendsTransitive(w, s, next, Follow(w, base, pageUrl, anchors, depth, s));
    }
  }

  lemma {:induction false} StepExtends(w: Web, base: string, pageUrl: string, a: Anchor, depth: nat, s: CrawlState)
    ensures Extends(w, s, Step(w, base, pageUrl, a, depth, s))
    decreases Rank(depth), 0, 0
  {
    match LinkTarget(w, base, pageUrl, a)
    case Some(u) =>
      if u.href !in s.visited {
        VisitExtends(w, base, u, depth - 1, s);
      } else {
        assert s.fetched[|s.fetched|..] == [];
      }
    case None =>
      assert s.fetched[|s.fetched|..] == [];
  }

  /**
   * Reference definition: the targets whose URL was not seen before, each
   * URL once, in order of first occurrence.
   */
  function Fresh(ts: seq<Url>, seen: set<string>): seq<Url> {
    if ts == [] then []
    else if ts[0].href in seen then Fresh(ts[1..], seen)
    else [ts[0]] + Fresh(ts[1..], seen + {ts[0].href})
  }

  /**
   * `Fresh` keeps targets of `ts` whose URL is unseen, no URL twice, and
   * leaves out no URL that was neither seen nor kept.
   */
  lemma FreshDistinct(ts: seq<Url>, seen: set<string>)
    ensures var r := Fresh(ts, seen);
      && (forall k :: 0 <= k < |r| ==> r[k] in ts && r[k].href !in seen)
      && (forall i, j :: 0 <= i < j < |r| ==> r[i].href != r[j].href)
      && (forall t :: t in ts ==> t.href in seen || t.href in HrefSet(r))
  {
    FreshKeepsUnseen(ts, seen);
    FreshNoRepeat(ts, seen);
    FreshCovers(ts, seen);
  }

  lemma InTail<T>(ts: seq<T>, x: T)
    requires ts != [] && x in ts[1..]
    ensures x in ts
  {
    var j :| 0 <= j < |ts[1..]| && ts[1..][j] == x;
    assert ts[j + 1] == x;
  }

  lemma {:induction false} FreshKeepsUnseen(ts: seq<Url>, seen: set<string>)
    ensures forall k :: 0 <= k < |Fresh(ts, seen)| ==>
      Fresh(ts, seen)[k] in ts && Fresh(ts, seen)[k].href !in seen
  {
    if ts != [] {
      var r := Fresh(ts, seen);
      if ts[0].href in seen {
        FreshKeepsUnseen(ts[1..], seen);
        forall k | 0 <= k < |r| ensures r[k] in ts && r[k].href !in seen {
          InTail(ts, r[k]);
        }
      } else {
        var seen' := seen + {ts[0].href};
        FreshKeepsUnseen(ts[1..], seen');
        var rest := Fresh(ts[1..], seen');
        assert r == [ts[0]] + rest;
        forall k | 0 <= k < |r| ensures r[k] in ts && r[k].href !in seen {
          if k > 0 {
            assert r[k] == rest[k - 1];
            InTail(ts, r[k]);
          }
        }
      }
    }
  }

  lemma {:induction false} FreshNoRepeat(ts: seq<Url>, seen: set<string>)
    ensures forall i, j :: 0 <= i < j < |Fresh(ts, seen)| ==> Fresh(ts, seen)[i].href != Fresh(ts, seen)[j].href
  {
    if ts != [] {
      var r := Fresh(ts, seen);
      if ts[0].href in seen {
        FreshNoRepeat(ts[1..], seen);
      } else {
        var seen' := seen + {ts[0].href};
        FreshNoRepeat(ts[1..], seen');
        FreshKeepsUnseen(ts[1..], seen');
        var rest := Fresh(ts[1..], seen');
        assert r == [ts[0]] + rest;
        forall i, j | 0 <= i < j < |r| ensures r[i].href != r[j].href {
          assert r[j] == rest[j - 1];
          if i > 0 {
            assert r[i] == rest[i - 1];
          }
        }
      }
    }
  }

  lemma {:induction false} FreshCovers(ts: seq<Url>, seen: set<string>)
    ensures forall t :: t in ts ==> t.href in seen || t.href in HrefSet(Fresh(ts, seen))
  {
    if ts != [] {
      var r := Fresh(ts, seen);
      if ts[0].href in seen {
        FreshCovers(ts[1..], seen);
        forall t | t in ts ensures t.href in seen || t.href in HrefSet(r) {
          var k :| 0 <= k < |ts| && ts[k] == t;
          if k > 0 {
            assert ts[1..][k - 1] == t;
          }
        }
      } else {
        var seen' := seen + {ts[0].href};
        FreshCovers(ts[1..], seen');
        var rest := Fresh(ts[1..], seen');
        assert r == [ts[0]] + rest;
        assert HrefSet(r) == {ts[0].href} + HrefSet(rest);
        forall t | t in ts ensures t.href in seen || t.href in HrefSet(r) {
          var k :| 0 <= k < |ts| && ts[k] == t;
          if k > 0 {
            assert ts[1..][k - 1] == t;
          }
        }
      }
    }
  }

  /** Deduplicating a concatenation deduplicates the second part against what the first part added. */
  lemma {:induction false} FreshAppend(x: seq<Url>, y: seq<Url>, seen: set<string>)
    ensures Fresh(x + y, seen) == Fresh(x, seen) + Fresh(y, seen + HrefSet(Fresh(x, seen)))
  {
    if x == [] {
      assert x + y == y;
      assert seen + HrefSet([]) == seen;
    } else {
      assert (x + y)[0] == x[0] && (x + y)[1..] == x[1..] + y;
      if x[0].href in seen {
        FreshAppend(x[1..], y, seen);
      } else {
        var seen' := seen + {x[0].href};
        FreshAppend(x[1..], y, seen');
        var rest := Fresh(x[1..], seen');
        assert HrefSet([x[0]] + rest) == {x[0].href} + HrefSet(rest);
        assert seen' + HrefSet(rest) == seen + HrefSet([x[0]] + rest);
      }
    }
  }

  /** At depth 1 an eligible, unvisited link is fetched once and followed no further. */
  lemma StepDepthOne(w: Web, base: string, pageUrl: string, a: Anchor, s: CrawlState)
    ensures var r := Step(w, base, pageUrl, a, 1, s);
      var added := Fresh(AnchorTargets(w, base, pageUrl, a), s.visited);
      r.fetched == s.fetched + added && r.visited == s.visited + HrefSet(added)
  {
    match LinkTarget(w, base, pageUrl, a)
    case None =>
      assert s.fetched + [] == s.fetched;
    case Some(u) =>
      assert [u][1..] == [];
      if u.href in s.visited {
        assert s.fetched + [] == s.fetched;
      } else {
        assert Fresh([u], s.visited) == [u];
        assert HrefSet([u]) == {u.href};
        VisitDepthZero(w, base, u, s);
      }
  }

  /** A call at depth 0 on an unvisited URL fetches that URL alone. */
  lemma VisitDepthZero(w: Web, base: string, t: Url, s: CrawlState)
    requires t.href !in s.visited
    ensures Visit(w, base, t, 0, s).fetched == s.fetched + [t]
    ensures Visit(w, base, t, 0, s).visited == s.visited + {t.href}
  {
    var entered := s.(visited := s.visited + {t.href}, fetched := s.fetched + [t]);
    match FetchPage(w, t.href)
    case None =>
      assert Visit(w, base, t, 0, s) == entered;
    case Some(page) =>
      assert Visit(w, base, t, 0, s) == entered.(emails := AddAll(entered.emails, page.emails));
  }

  lemma AppendTwice(f0: seq<Url>, v0: set<string>, a: seq<Url>, b: seq<Url>,
                    f1: seq<Url>, v1: set<string>, f2: seq<Url>, v2: set<string>)
    requires f1 == f0 + a && v1 == v0 + HrefSet(a)
    requires f2 == f1 + b && v2 == v1 + HrefSet(b)
    ensures f2 == f0 + (a + b) && v2 == v0 + HrefSet(a + b)
  {
    assert HrefSet(a + b) == HrefSet(a) + HrefSet(b);
  }

  /** At depth 1 the children are fetched once each and follow nothing. */
  lemma {:induction false} FollowDepthOne(w: Web, base: string, pageUrl: string, anchors: seq<Anchor>, s: CrawlState)
    ensures var r := Follow(w, base, pageUrl, anchors, 1, s);
      var added := Fresh(EligibleTargets(w, base, pageUrl, anchors), s.visited);
      r.fetched == s.fetched + added && r.visited == s.visited + HrefSet(added)
  {
    if anchors == [] {
      assert s.fetched + [] == s.fetched;
    } else {
      var first := AnchorTargets(w, base, pageUrl, anchors[0]);
      var rest := EligibleTargets(w, base, pageUrl, anchors[1..]);
      var next := Step(w, base, pageUrl, anchors[0], 1, s);
      assert Follow(w, base, pageUrl, anchors, 1, s) == Follow(w, base, pageUrl, anchors[1..], 1, next);
      assert EligibleTargets(w, base, pageUrl, anchors) == first + rest;
      StepDepthOne(w, base, pageUrl, anchors[0], s);
      FollowDepthOne(w, base, pageUrl, anchors[1..], next);
      FreshAppend(first, rest, s.visited);
      var a := Fresh(first, s.visited);
      var b := Fresh(rest, next.visited);
      var r := Follow(w, base, pageUrl, anchors[1..], 1, next);
      AppendTwice(s.fetched, s.visited, a, b, next.fetched, next.visited, r.fetched, r.visited);
    }
  }

  /** `targetedCrawl(startUrl, depth)` up to the final `Array.from`; None when `new URL(startUrl)` throws. */
  function CrawlRun(w: Web, startUrl: string, depth: int): Option<CrawlState> {
    match w.parse(startUrl)
    case None => None
    case Some(start) => Some(Visit(w, start.hostname, Url(startUrl, start.hostname), depth, Initial))
  }

  /** The result of `targetedCrawl(startUrl, depth)`. */
  function CrawlEmails(w: Web, startUrl: string, depth: int): (r: seq<string>)
    ensures w.parse(startUrl).None? ==> r == []
    ensures NoDup(r)
  {
    match CrawlRun(w, startUrl, depth)
    case None => []
    case Some(s) =>
      var host := w.parse(startUrl).value.hostname;
      VisitPreservesInv(w, host, Url(startUrl, host), depth, Initial);
      s.emails
  }

  /**
   * Within one seed's crawl no URL is fetched twice, `visited` is the set of
   * fetched URLs, and every fetched URL is on the seed's host.
   */
  lemma CrawlFetchesOnceOnSeedHost(w: Web, startUrl: string, depth: int)
    requires w.parse(startUrl).Some?
    ensures var s := CrawlRun(w, startUrl, depth).value;
      && (forall i, j :: 0 <= i < j < |s.fetched| ==> s.fetched[i].href != s.fetched[j].href)
      && s.visited == HrefSet(s.fetched)
      && (forall i :: 0 <= i < |s.fetched| ==> s.fetched[i].hostname == w.parse(startUrl).value.hostname)
  {
    var host := w.parse(startUrl).value.hostname;
    VisitPreservesInv(w, host, Url(startUrl, host), depth, Initial);
  }

  /**
   * The crawl returns exactly the distinct emails matched on the pages it
   * fetched successfully, and each has the shape of the email pattern.
   */
  lemma CrawlEmailsFromFetchedPages(w: Web, startUrl: string, depth: int)
    requires w.parse(startUrl).Some?
    ensures var s := CrawlRun(w, startUrl, depth).value;
      forall e :: e in CrawlEmails(w, startUrl, depth) <==> e in PagesEmails(w, s.fetched)
    ensures forall e :: e in CrawlEmails(w, startUrl, depth) ==> EmailPattern.EmailShape(e)
  {
    var host := w.parse(startUrl).value.hostname;
    var s := CrawlRun(w, startUrl, depth).value;
    VisitExtends(w, host, Url(startUrl, host), depth, Initial);
    assert s.fetched[0..] == s.fetched;
    forall e | e in CrawlEmails(w, startUrl, depth) ensures EmailPattern.EmailShape(e) {
      PagesEmailsShape(w, s.fetched, e);
    }
  }

  /** A negative depth fetches nothing and finds nothing. */
  lemma CrawlNegativeDepth(w: Web, startUrl: string, depth: int)
    requires w.parse(startUrl).Some? && depth < 0
    ensures CrawlRun(w, startUrl, depth).value.fetched == []
    ensures CrawlEmails(w, startUrl, depth) == []
  {
  }

  /** Depth 0 fetches the seed alone and keeps the distinct emails of its page. */
  lemma CrawlDepthZero(w: Web, startUrl: string)
    requires w.parse(startUrl).Some?
    ensures CrawlRun(w, startUrl, 0).value.fetched == [Url(startUrl, w.parse(startUrl).value.hostname)]
    ensures CrawlEmails(w, startUrl, 0) ==
      match FetchPage(w, startUrl)
      case None => []
      case Some(page) => Distinct(page.emails)
  {
  }

  /**
   * Depth 1, the depth the batch uses, fetches the seed and then, when its
   * page was fetched, each distinct eligible link of it other than the seed
   * URL itself, once, in document order.
   */
  lemma CrawlDepthOne(w: Web, startUrl: string)
    requires w.parse(startUrl).Some?
    ensures var host := w.parse(startUrl).value.hostname;
      CrawlRun(w, startUrl, 1).value.fetched ==
        [Url(startUrl, host)]
        + match FetchPage(w, startUrl)
          case None => []
          case Some(page) => Fresh(EligibleTargets(w, host, startUrl, page.anchors), {startUrl})
  {
    var host := w.parse(startUrl).value.hostname;
    var seed := Url(startUrl, host);
    var run := Visit(w, host, seed, 1, Initial);
    assert CrawlRun(w, startUrl, 1) == Some(run);
    var entered := Initial.(visited := Initial.visited + {startUrl}, fetched := Initial.fetched + [seed]);
    assert entered.fetched == [seed] && entered.visited == {startUrl};
    match FetchPage(w, startUrl)
    case None =>
      assert run == entered;
    case Some(page) =>
      var collected := entered.(emails := AddAll(entered.emails, page.emails));
      assert run == Follow(w, host, startUrl, page.anchors, 1, collected);
      FollowDepthOne(w, host, startUrl, page.anchors, collected);
  }
}
