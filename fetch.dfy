/**
 * `getPage` and the abstract web the crawler reads. The network, the HTML
 * parser (cheerio) and URL parsing (`new URL`) are parameters.
 */
module Fetch {
  import opened Wrappers
  import Text
  import EmailPattern

  /** What one `fetch(url, ...)` call produced. */
  datatype HttpOutcome =
    | NetworkError  // a rejected fetch: DNS, connection, the 5-second timeout
    | Response(status: int, contentType: Option<string>, body: Option<string>)  // body None: `text()` rejected

  /** `response.ok` */
  predicate IsOkStatus(status: int) { 200 <= status <= 299 }

  /** The accept/reject decision of `getPage`: the body of an ok HTML response, else nothing. */
  function GetPage(o: HttpOutcome): (html: Option<string>)
    ensures html.Some? <==>
      && o.Response?
      && IsOkStatus(o.status)
      && Text.Contains(o.contentType.GetOr(""), "text/html")
      && o.body.Some?
    ensures html.Some? ==> html.value == o.body.value
  {
    match o
    case NetworkError => None
    case Response(status, contentType, body) =>
      if !IsOkStatus(status) then None
      else if Text.Contains(contentType.GetOr(""), "text/html") then body
      else None
  }

  /** A parsed URL: its serialisation (`href`) and its `hostname`. */
  datatype Url = Url(href: string, hostname: string)

  /** An `a[href]` element: the raw `href` attribute and the element's text. */
  datatype Anchor = Anchor(href: string, text: string)

  datatype Web = Web(
    get: string -> HttpOutcome,                // the HTTP exchange for a URL
    anchors: string -> seq<Anchor>,            // `$('a[href]')` on an HTML text, in document order
    parse: string -> Option<Url>,              // `new URL(s)`; None when it throws
    resolve: (string, string) -> Option<Url>)  // `new URL(href, base)`; None when it throws

  /** What the crawler takes from one fetched page. */
  datatype Page = Page(emails: seq<string>, anchors: seq<Anchor>)

  /**
   * `getPage(url)` followed by the `if (!html) return` guard, the email scan
   * and the anchor extraction.
   */
  function FetchPage(w: Web, url: string): (r: Option<Page>)
    ensures r.Some? <==> GetPage(w.get(url)).Some? && GetPage(w.get(url)).value != ""
    ensures r.Some? ==> forall k :: 0 <= k < |r.value.emails| ==> EmailPattern.EmailShape(r.value.emails[k])
  {
    match GetPage(w.get(url))
    case None => None
    case Some(html) =>
      if html == "" then None
      else Some(Page(EmailPattern.MatchEmails(html), w.anchors(html)))
  }
}
