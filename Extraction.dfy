/**
 * What one seed's page yields: `ExtractUrlsFromTags` for one XPath selector, and
 * `Discovered`, the list `CrawlAsync` returns, as a function of the fetch outcome.
 * The network client and the HTML library are outside the model: their results
 * are given as data.
 */
module Extraction {
  import opened Url

  /**
   * What `DocumentNode.SelectNodes(xpath)` and `GetAttributeValue` give for one
   * selector. The selectors only match elements that carry the attribute
   * (`//a[@href]`, `//img[@src]`), so every matched node has a value. The values
   * are produced lazily, one node at a time, as `AddRange` pulls them, so a fault
   * can strike after some values have already been produced.
   */
  datatype Selection =
    | NoMatch                      // SelectNodes returned null
    | Matched(values: seq<string>) // the attribute value of each matched node, in document order
    | Faulted(before: seq<string>) // the library threw after producing these values, in document order

  /** A loaded document, seen through the two selectors the crawler uses. */
  datatype Page = Page(anchorHrefs: Selection, imageSrcs: Selection)

  /** The result of `HtmlWeb.LoadFromWebAsync(rootUrl)`. */
  datatype FetchOutcome = LoadFailed | Loaded(page: Page)

  /**
   * What enumerating `ExtractUrlsFromTags` hands to `AddRange`: the URLs yielded,
   * and whether the enumeration ran to its end or was cut short by an exception.
   */
  datatype Yield = Complete(urls: seq<string>) | Interrupted(urls: seq<string>)

  /** The attribute values a selector produced, whether or not it then threw; none without a match. */
  function Offered(selection: Selection): seq<string> {
    match selection
    case NoMatch => []
    case Matched(values) => values
    case Faulted(before) => before
  }

  /**
   * `ExtractUrlsFromTags`, enumerated: the valid attribute values of the matched
   * nodes, in document order; no match gives the empty sequence.
   */
  function ExtractUrlsFromTags(tryCreate: UriParser, selection: Selection): (r: Yield)
    ensures r.Interrupted? <==> selection.Faulted?
    ensures forall u :: u in r.urls ==> IsValidUrl(tryCreate, u)
  {
    match selection
    case NoMatch => Complete([])
    case Matched(values) => Complete(WhereValid(tryCreate, values))
    case Faulted(before) => Interrupted(WhereValid(tryCreate, before))
  }

  /**
   * Each valid value the selector produced is yielded as often as it was produced,
   * duplicates included; an invalid value never is.
   */
  lemma ExtractUrlsFromTagsCount(tryCreate: UriParser, selection: Selection, u: string)
    ensures multiset(ExtractUrlsFromTags(tryCreate, selection).urls)[u] ==
            if IsValidUrl(tryCreate, u) then multiset(Offered(selection))[u] else 0
  {
    WhereValidCount(tryCreate, Offered(selection), u);
  }

  /**
   * The list `CrawlAsync` returns: hrefs first, then image sources. Its `catch`
   * leaves the list as it was when the exception struck, and the list is returned
   * after the `catch`: a failed load gives the empty list, a fault in the anchor
   * selector keeps the hrefs added before it, a fault in the image selector keeps
   * every href and the sources added before it.
   */
  function Discovered(tryCreate: UriParser, fetch: FetchOutcome): (r: seq<string>)
    ensures forall u :: u in r ==> IsValidUrl(tryCreate, u)
  {
    match fetch
    case LoadFailed => []
    case Loaded(page) =>
      var hrefs := ExtractUrlsFromTags(tryCreate, page.anchorHrefs);
      if hrefs.Interrupted? then hrefs.urls
      else hrefs.urls + ExtractUrlsFromTags(tryCreate, page.imageSrcs).urls
  }

  /**
   * On a page whose anchor selector does not throw, the discovered list is exactly
   * the valid part of the href values followed by the src values produced, in
   * document order.
   */
  lemma DiscoveredIsValidAttributes(tryCreate: UriParser, page: Page)
    requires !page.anchorHrefs.Faulted?
    ensures Discovered(tryCreate, Loaded(page)) ==
            WhereValid(tryCreate, Offered(page.anchorHrefs) + Offered(page.imageSrcs))
  {
    WhereValidConcat(tryCreate, Offered(page.anchorHrefs), Offered(page.imageSrcs));
  }

  /**
   * Duplicates are preserved: a valid URL is discovered as many times as it
   * appears among the page's hrefs and sources together; an invalid one never.
   */
  lemma DiscoveredCount(tryCreate: UriParser, page: Page, u: string)
    requires !page.anchorHrefs.Faulted?
    ensures multiset(Discovered(tryCreate, Loaded(page)))[u] ==
            if IsValidUrl(tryCreate, u)
            then multiset(Offered(page.anchorHrefs))[u] + multiset(Offered(page.imageSrcs))[u]
            else 0
  {
    var all := Offered(page.anchorHrefs) + Offered(page.imageSrcs);
    DiscoveredIsValidAttributes(tryCreate, page);
    WhereValidCount(tryCreate, all, u);
  }

  /**
   * Failures are contained: a failed load yields no discoveries, a throwing anchor
   * selector yields the valid hrefs produced before it threw (none if it threw at
   * once), and the image sources are then never looked at.
   */
  lemma DiscoveredOnFailure(tryCreate: UriParser, fetch: FetchOutcome)
    ensures fetch.LoadFailed? ==> Discovered(tryCreate, fetch) == []
    ensures fetch.Loaded? && fetch.page.anchorHrefs.Faulted? ==>
            Discovered(tryCreate, fetch) == WhereValid(tryCreate, fetch.page.anchorHrefs.before)
    ensures fetch.Loaded? && fetch.page.anchorHrefs == Faulted([]) ==> Discovered(tryCreate, fetch) == []
  {
  }

  /** A document without anchors or images yields an empty list, not an error. */
  lemma EmptyPageDiscoversNothing(tryCreate: UriParser, anchors: Selection, images: Selection)
    requires anchors == NoMatch || anchors == Matched([])
    requires images == NoMatch || images == Matched([])
    ensures Discovered(tryCreate, Loaded(Page(anchors, images))) == []
  {
  }
}
