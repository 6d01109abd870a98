/** Which links of a fetched page the targeted crawl follows. */
module CrawlPolicy {
  import opened Wrappers
  import Text
  import opened Fetch

  const CrawlKeywords: seq<string> := ["contact", "about", "support", "team", "info"]

  /** An empty href, or one with a scheme that names no page. */
  predicate NonNavigable(href: string) {
    href == "" || Text.StartsWith(href, "mailto:") || Text.StartsWith(href, "javascript:")
    || Text.StartsWith(href, "tel:")
  }

  /** `href.includes(k) || linkText.includes(k)` */
  predicate Mentions(href: string, linkText: string, k: string) {
    Text.Contains(href, k) || Text.Contains(linkText, k)
  }

  /** `keywords.some(k => href.includes(k) || linkText.includes(k))` */
  function AnyKeyword(keywords: seq<string>, href: string, linkText: string): (r: bool)
    ensures r <==> exists k :: k in keywords && Mentions(href, linkText, k)
  {
    if keywords == [] then false
    else
      var rest := AnyKeyword(keywords[1..], href, linkText);
      assert forall k :: k in keywords <==> k == keywords[0] || k in keywords[1..];
      Mentions(href, linkText, keywords[0]) || rest
  }

  /** The resolved URL (case-sensitive) or the lower-cased anchor text mentions a keyword. */
  predicate HasKeyword(href: string, text: string) {
    AnyKeyword(CrawlKeywords, href, Text.ToLower(text))
  }

  /** The text is lower-cased first, so a link reading `CONTACT` passes on its text alone. */
  lemma CapitalisedTextHasKeyword(href: string)
    ensures HasKeyword(href, "CONTACT")
  {
    var lower := Text.ToLower("CONTACT");
    assert lower == "contact";
    assert Text.StartsWith(lower[0..], "contact");
    assert Mentions(href, lower, CrawlKeywords[0]);
  }

  /**
   * The URL an anchor of the page at `pageUrl` leads to when the link is to
   * be followed, leaving aside whether it was visited already.
   */
  function LinkTarget(w: Web, base: string, pageUrl: string, a: Anchor): (r: Option<Url>)
    ensures r.Some? <==>
      && !NonNavigable(Text.Trim(a.href))
      && w.resolve(Text.Trim(a.href), pageUrl).Some?
      && w.resolve(Text.Trim(a.href), pageUrl).value.hostname == base
      && HasKeyword(w.resolve(Text.Trim(a.href), pageUrl).value.href, a.text)
    ensures r.Some? ==> r == w.resolve(Text.Trim(a.href), pageUrl)
  {
    var href := Text.Trim(a.href);
    if NonNavigable(href) then None
    else
      match w.resolve(href, pageUrl)
      case None => None
      case Some(u) => if u.hostname == base && HasKeyword(u.href, a.text) then Some(u) else None
  }

  /** Reference definition: the targets of a page's anchors, in document order, duplicates kept. */
  function EligibleTargets(w: Web, base: string, pageUrl: string, anchors: seq<Anchor>): (r: seq<Url>)
    ensures forall k :: 0 <= k < |r| ==> r[k].hostname == base
  {
    if anchors == [] then []
    else AnchorTargets(w, base, pageUrl, anchors[0]) + EligibleTargets(w, base, pageUrl, anchors[1..])
  }

  /** The target of one anchor, as a sequence of zero or one URLs. */
  function AnchorTargets(w: Web, base: string, pageUrl: string, a: Anchor): seq<Url> {
    match LinkTarget(w, base, pageUrl, a)
    case Some(u) => [u]
    case None => []
  }
}
