/** web_crawler.py: the crawler built on base_crawler.py. Its URL test has
    no host requirement, a link is kept when its resolved form starts with
    the host URL as a string, the page's links are kept in order with their
    duplicates, and the result holds the raw crawled records. The scheduler,
    the browser and the clock are inputs: a sequence of `Visit`s. */
module WebCrawler {
  import opened Common
  import opened Urls
  import opened Models
  import opened LinkContainers
  import BaseCrawler

  /** What `extract_valid_urls` asks of a resolved link. */
  predicate Accepts(url: string, hostUrl: string, processedUrls: set<string>) {
    StartsWith(url, hostUrl) && url !in processedUrls && BaseCrawler.IsValidUrl(url)
  }

  /** The links of `urls` that `Accepts` keeps, in order, duplicates
      included. */
  function KeptLinks(urls: seq<string>, hostUrl: string, processedUrls: set<string>): seq<string> {
    if urls == [] then []
    else
      var last := urls[|urls| - 1];
      KeptLinks(urls[..|urls| - 1], hostUrl, processedUrls) + (if Accepts(last, hostUrl, processedUrls) then [last] else [])
  }

  /** The filter keeps exactly the accepted links. */
  lemma {:induction false} KeptLinksMembers(urls: seq<string>, hostUrl: string, processedUrls: set<string>)
    ensures forall u :: u in KeptLinks(urls, hostUrl, processedUrls) <==> u in urls && Accepts(u, hostUrl, processedUrls)
  {
    if urls != [] {
      var init := urls[..|urls| - 1];
      KeptLinksMembers(init, hostUrl, processedUrls);
      assert urls == init + [urls[|urls| - 1]];
    }
  }

  /** The filter distributes over concatenation, so it keeps the order of
      the links it is given. */
  lemma {:induction false} KeptLinksAppend(a: seq<string>, b: seq<string>, hostUrl: string, processedUrls: set<string>)
    ensures KeptLinks(a + b, hostUrl, processedUrls) == KeptLinks(a, hostUrl, processedUrls) + KeptLinks(b, hostUrl, processedUrls)
    decreases |b|
  {
    if b == [] {
      assert a + b == a;
    } else {
      var init, last := b[..|b| - 1], b[|b| - 1];
      assert a + b == (a + init) + [last];
      assert (a + b)[..|a + b| - 1] == a + init;
      KeptLinksAppend(a, init, hostUrl, processedUrls);
    }
  }

  /** A link that repeats is kept each time. */
  lemma DuplicatesAreKept(u: string, hostUrl: string, processedUrls: set<string>)
    requires Accepts(u, hostUrl, processedUrls)
    ensures KeptLinks([u, u], hostUrl, processedUrls) == [u, u]
  {
    KeptLinksSnoc([], u, hostUrl, processedUrls);
    KeptLinksSnoc([u], u, hostUrl, processedUrls);
    assert [] + [u] == [u] && [u] + [u] == [u, u];
  }

  /** The host test is a string prefix, not a host comparison: with the
      host URL `http://example.com`, the link `http://example.community/x`
      is accepted, although its network location is another
      (`NetlocsDiffer`). */
  lemma AcceptsOtherHostWithSamePrefix(scheme: string, netloc: string, suffix: string, path: string,
                                       processedUrls: set<string>)
    requires scheme == "http" || scheme == "https"
    requires forall k :: 0 <= k < |netloc| ==> netloc[k] !in "/?#"
    requires suffix != "" && forall k :: 0 <= k < |suffix| ==> suffix[k] !in "/?#"
    requires path == "" || path[0] == '/'
    requires '?' !in path && '#' !in path
    requires scheme + "://" + netloc + suffix + path !in processedUrls
    ensures Accepts(scheme + "://" + netloc + suffix + path, scheme + "://" + netloc, processedUrls)
  {
    NetlocTextAppend(netloc, suffix);
    LongerHostUrl(scheme, netloc, suffix, path);
  }

  /** The URL on the longer host part is valid and starts with the host URL. */
  lemma LongerHostUrl(scheme: string, netloc: string, suffix: string, path: string)
    requires scheme == "http" || scheme == "https"
    requires forall k :: 0 <= k < |netloc + suffix| ==> (netloc + suffix)[k] !in "/?#"
    requires path == "" || path[0] == '/'
    requires '?' !in path && '#' !in path
    ensures BaseCrawler.IsValidUrl(scheme + "://" + netloc + suffix + path)
    ensures StartsWith(scheme + "://" + netloc + suffix + path, scheme + "://" + netloc)
  {
    BaseCrawler.AcceptsWebUrl(scheme, netloc + suffix, path);
    AppendAssoc(scheme + "://", netloc, suffix);
    AppendAssoc(scheme + "://" + netloc, suffix, path);
    HostIsPrefix(scheme + "://" + netloc, suffix + path);
  }

  lemma HostIsPrefix(host: string, rest: string)
    ensures StartsWith(host + rest, host)
  {
    assert (host + rest)[..|host|] == host;
  }

  /** A longer host part is another network location: the link that
      `AcceptsOtherHostWithSamePrefix` accepts is on another host. */
  lemma NetlocsDiffer(scheme: string, netloc: string, longer: string, path: string)
    requires scheme == "http" || scheme == "https"
    requires forall k :: 0 <= k < |longer| ==> longer[k] !in "/?#"
    requires forall k :: 0 <= k < |netloc| ==> netloc[k] !in "/?#"
    requires |netloc| < |longer|
    requires path == "" || path[0] == '/'
    requires '?' !in path && '#' !in path
    ensures Urlsplit(scheme + "://" + longer + path).netloc != Urlsplit(scheme + "://" + netloc).netloc
  {
    SplitOfWebUrl(scheme, longer, path);
    SplitOfWebUrl(scheme, netloc, "");
    assert scheme + "://" + netloc + "" == scheme + "://" + netloc;
  }

  /** Why `extract_valid_urls` raises: a container without `links`
      (`KeyError`). */
  datatype ExtractError = MissingLinks

  /** One more link extends the filtered list by that link, if accepted. */
  lemma KeptLinksSnoc(urls: seq<string>, u: string, hostUrl: string, processedUrls: set<string>)
    ensures KeptLinks(urls + [u], hostUrl, processedUrls)
         == KeptLinks(urls, hostUrl, processedUrls) + (if Accepts(u, hostUrl, processedUrls) then [u] else [])
  {
    assert (urls + [u])[..|urls|] == urls;
  }

  /** The joined links of one more container that has links. */
  lemma JoinedLinksSnoc(cs: seq<Container>, i: nat, base: string)
    requires i < |cs| && cs[i].links.Some?
    ensures JoinedLinks(cs[..i + 1], base) == JoinedLinks(cs[..i], base) + JoinAll(base, cs[i].links.value)
  {
    assert cs[..i + 1][..i] == cs[..i];
  }

  /** Resolving and filtering one more link of a container. */
  lemma KeptJoinedSnoc(links: seq<string>, j: nat, hostUrl: string, processedUrls: set<string>)
    requires j < |links|
    ensures var fullUrl := Join(hostUrl, links[j]);
      KeptLinks(JoinAll(hostUrl, links[..j + 1]), hostUrl, processedUrls)
      == KeptLinks(JoinAll(hostUrl, links[..j]), hostUrl, processedUrls)
         + (if Accepts(fullUrl, hostUrl, processedUrls) then [fullUrl] else [])
  {
    JoinAllSnoc(hostUrl, links, j);
    KeptLinksSnoc(JoinAll(hostUrl, links[..j]), Join(hostUrl, links[j]), hostUrl, processedUrls);
  }

  /** The inner loop of `extract_valid_urls` over one container's links:
      the accepted resolved links are appended to `validUrls`, in order. */
  method AppendAccepted(validUrls: seq<string>, links: seq<string>, hostUrl: string, processedUrls: set<string>)
    returns (extended: seq<string>)
    ensures extended == validUrls + KeptLinks(JoinAll(hostUrl, links), hostUrl, processedUrls)
  {
    extended := validUrls;
    ghost var kept: seq<string> := [];
    assert links[..0] == [];
    for j := 0 to |links|
      invariant kept == KeptLinks(JoinAll(hostUrl, links[..j]), hostUrl, processedUrls)
      invariant extended == validUrls + kept
    {
      var fullUrl := Join(hostUrl, links[j]);
      KeptJoinedSnoc(links, j, hostUrl, processedUrls);
      if Accepts(fullUrl, hostUrl, processedUrls) {
        AppendAssoc(validUrls, kept, [fullUrl]);
        extended := extended + [fullUrl];
        kept := kept + [fullUrl];
      }
    }
    assert links[..|links|] == links;
  }

  /** `extract_valid_urls`: every resolved link of every container that
      passes `Accepts`, in order and with duplicates; `KeyError` when a
      container has no `links`. */
  method ExtractValidUrls(containers: seq<Container>, hostUrl: string, processedUrls: set<string>)
    returns (r: Result<seq<string>, ExtractError>)
    ensures r.Failure? <==> exists c :: c in containers && c.links.None?
    ensures r.Success? ==> r.value == KeptLinks(JoinedLinks(containers, hostUrl), hostUrl, processedUrls)
  {
    var validUrls: seq<string> := [];
    for i := 0 to |containers|
      invariant forall c :: c in containers[..i] ==> c.links.Some?
      invariant validUrls == KeptLinks(JoinedLinks(containers[..i], hostUrl), hostUrl, processedUrls)
    {
      var container := containers[i];
      if container.links.None? {
        return Failure(MissingLinks);
      }
      JoinedLinksSnoc(containers, i, hostUrl);
      KeptLinksAppend(JoinedLinks(containers[..i], hostUrl), JoinAll(hostUrl, container.links.value), hostUrl, processedUrls);
      validUrls := AppendAccepted(validUrls, container.links.value, hostUrl, processedUrls);
    }
    assert containers[..|containers|] == containers;
    return Success(validUrls);
  }

  /** The links a page with `elements` yields: the accepted resolved links
      of its top three link containers, in order. */
  function PageLinks(elements: seq<Element>, hostUrl: string, processedUrls: set<string>): seq<string> {
    KeptLinks(JoinedLinks(TopLinkContainers(elements), hostUrl), hostUrl, processedUrls)
  }

  /** A URL a crawl of `hostUrl` may visit outside sitemap mode. */
  predicate WithinHost(u: string, hostUrl: string) {
    StartsWith(u, hostUrl) && BaseCrawler.IsValidUrl(u)
  }

  predicate AllWithinHost(urls: set<string>, hostUrl: string) {
    forall u :: u in urls ==> WithinHost(u, hostUrl)
  }

  /** Every link a page yields starts with the host URL, passes the URL
      test and is not processed yet. */
  lemma PageLinksAreFresh(elements: seq<Element>, hostUrl: string, processedUrls: set<string>)
    ensures forall u :: u in PageLinks(elements, hostUrl, processedUrls) ==> u !in processedUrls
    ensures AllWithinHost(Elems(PageLinks(elements, hostUrl, processedUrls)), hostUrl)
  {
    KeptLinksMembers(JoinedLinks(TopLinkContainers(elements), hostUrl), hostUrl, processedUrls);
  }

  /** Fewer URLs stay within the host. */
  lemma AllWithinHostSubset(a: set<string>, b: set<string>, hostUrl: string)
    requires a <= b && AllWithinHost(b, hostUrl)
    ensures AllWithinHost(a, hostUrl)
  {
  }

  /** The state that the request handler of `crawl` shares with its
      enclosing call: `crawled_data`, `processed_urls`, `initial_urls`
      (`None` when sitemap mode is asked for without a list) and
      `is_first_page`, with the requests handed to the crawler. */
  class WebCrawl {
    const hostUrl: string
    const maxLinks: int
    const useSitemap: bool
    var crawledData: seq<CrawledItem>
    var processedUrls: set<string>
    var initialUrls: Option<seq<string>>
    var isFirstPage: bool
    var requests: seq<string>

    /** What holds between two handler calls. */
    ghost predicate Valid()
      reads this
    {
      && (|crawledData| <= maxLinks || crawledData == [])
      && Distinct(CrawledUrls(crawledData))
      && processedUrls == Elems(CrawledUrls(crawledData))
      && (forall k :: 0 <= k < |crawledData| ==> crawledData[k].url in requests)
      && (!useSitemap ==> AllWithinHost(Elems(requests), hostUrl))
      && (!useSitemap ==> initialUrls.Some? && AllWithinHost(Elems(initialUrls.value), hostUrl))
      && (useSitemap ==> !isFirstPage)
    }

    /** The set-up of `crawl` before `crawler.run(seeds)`. */
    constructor (hostUrl: string, maxLinks: int, useSitemap: bool, sitemapUrls: Option<seq<string>>, seeds: seq<string>)
      requires !useSitemap ==> AllWithinHost(Elems(seeds), hostUrl)
      ensures Valid()
      ensures this.hostUrl == hostUrl && this.maxLinks == maxLinks && this.useSitemap == useSitemap
      ensures crawledData == [] && processedUrls == {}
      ensures initialUrls == (if useSitemap then sitemapUrls else Some([]))
      ensures isFirstPage == !useSitemap && requests == seeds
    {
      this.hostUrl := hostUrl;
      this.maxLinks := maxLinks;
      this.useSitemap := useSitemap;
      crawledData := [];
      processedUrls := {};
      initialUrls := if useSitemap then sitemapUrls else Some([]);
      isFirstPage := !useSitemap;
      requests := seeds;
    }

    /** `crawled_data.append(...)` and `processed_urls.add(current_url)`
        for a page loaded within the budget. */
    method Record(item: CrawledItem)
      requires Valid() && item.url in requests && item.url !in processedUrls && |crawledData| < maxLinks
      modifies this
      ensures Valid()
      ensures crawledData == old(crawledData) + [item] && processedUrls == old(processedUrls) + {item.url}
      ensures requests == old(requests) && initialUrls == old(initialUrls) && isFirstPage == old(isFirstPage)
    {
      CrawledUrlsSnoc(crawledData, item);
      crawledData := crawledData + [item];
      processedUrls := processedUrls + {item.url};
    }

    /** `crawler.add_requests([link])` for each link of the page not
        processed yet, in order, while the budget is not used up. */
    method AddRequests(pageUrls: seq<string>)
      modifies this
      ensures |crawledData| < maxLinks ==> requests == old(requests) + Unvisited(pageUrls, processedUrls)
      ensures |crawledData| >= maxLinks ==> requests == old(requests)
      ensures crawledData == old(crawledData) && processedUrls == old(processedUrls)
      ensures initialUrls == old(initialUrls) && isFirstPage == old(isFirstPage)
    {
      ghost var before := requests;
      assert pageUrls[..0] == [];
      for i := 0 to |pageUrls|
        invariant crawledData == old(crawledData) && processedUrls == old(processedUrls)
        invariant initialUrls == old(initialUrls) && isFirstPage == old(isFirstPage)
        invariant requests == before + Unvisited(pageUrls[..i], processedUrls)
        invariant |crawledData| >= maxLinks ==> requests == before
      {
        if |crawledData| >= maxLinks {
          return;
        }
        var link := pageUrls[i];
        UnvisitedSnoc(pageUrls, i, processedUrls);
        if link !in processedUrls {
          AppendAssoc(before, Unvisited(pageUrls[..i], processedUrls), [link]);
          requests := requests + [link];
        }
      }
      assert pageUrls[..|pageUrls|] == pageUrls;
    }

    /** The link phase of `request_handler` outside sitemap mode, once the
        page is recorded and the budget is not used up: the first page's
        links become `initial_urls`, and each link becomes a request. */
    method FollowLinks(elements: seq<Element>)
      requires Valid() && !useSitemap && |crawledData| < maxLinks
      modifies this
      ensures Valid()
      ensures crawledData == old(crawledData) && processedUrls == old(processedUrls)
      ensures requests == old(requests) + PageLinks(elements, hostUrl, processedUrls)
      ensures initialUrls == (if old(isFirstPage) then Some(PageLinks(elements, hostUrl, processedUrls)) else old(initialUrls))
      ensures !isFirstPage
    {
      var topContainers := TopLinkContainers(elements);
      var extracted := ExtractValidUrls(topContainers, hostUrl, processedUrls);
      var pageUrls := extracted.value;
      PageLinksAreFresh(elements, hostUrl, processedUrls);
      if isFirstPage {
        initialUrls := Some(pageUrls);
        isFirstPage := false;
      }
      ghost var before := requests;
      AddRequests(pageUrls);
      UnvisitedOfFresh(pageUrls, processedUrls);
      assert forall k :: 0 <= k < |crawledData| ==> crawledData[k].url in before;
    }

    /** `request_handler` on the request for `url`, with what the browser
        made of the page and the clock reading. */
    method HandleRequest(url: string, load: PageLoad, now: Timestamp)
      requires Valid() && url in requests
      modifies this
      ensures Valid()
      ensures old(|crawledData|) >= maxLinks || url in old(processedUrls) || load.LoadFailed? ==>
        crawledData == old(crawledData) && processedUrls == old(processedUrls)
        && initialUrls == old(initialUrls) && isFirstPage == old(isFirstPage) && requests == old(requests)
      ensures old(|crawledData|) < maxLinks && url !in old(processedUrls) && load.Loaded? ==>
        crawledData == old(crawledData) + [CrawledItem(url, load.title, load.textContent, now)]
        && processedUrls == old(processedUrls) + {url}
      ensures old(|crawledData|) < maxLinks && url !in old(processedUrls) && load.Loaded?
              && |crawledData| < maxLinks && !useSitemap && load.elements.Some? ==>
        && requests == old(requests) + PageLinks(load.elements.value, hostUrl, processedUrls)
        && initialUrls
           == (if old(isFirstPage) then Some(PageLinks(load.elements.value, hostUrl, processedUrls))
               else old(initialUrls))
        && !isFirstPage
      ensures !(old(|crawledData|) < maxLinks && url !in old(processedUrls) && load.Loaded?
                && |crawledData| < maxLinks && !useSitemap && load.elements.Some?) ==>
        requests == old(requests) && initialUrls == old(initialUrls) && isFirstPage == old(isFirstPage)
    {
      if |crawledData| >= maxLinks {
        return;
      }
      if url in processedUrls {
        return;
      }
      match load
      case LoadFailed =>
        return;
      case Loaded(title, textContent, elements) =>
        Record(CrawledItem(url, title, textContent, now));
        if |crawledData| >= maxLinks {
          return;
        }
        if !useSitemap {
          match elements
          case None =>
            return;
          case Some(els) =>
            FollowLinks(els);
        }
    }
  }

  /** A valid host URL is one the crawl may visit. */
  lemma HostIsWithinHost(hostUrl: string)
    requires BaseCrawler.IsValidUrl(hostUrl)
    ensures WithinHost(hostUrl, hostUrl)
  {
    assert hostUrl[..|hostUrl|] == hostUrl;
  }

  /** `crawler.run(seeds)`: the handler runs on the request the scheduler
      picks at each visit, until a pick falls outside the requests made so
      far (the queue is drained) or the visits run out. */
  method Run(crawler: WebCrawl, visits: seq<Visit>)
    requires crawler.Valid()
    modifies crawler
    ensures crawler.Valid()
    ensures crawler.useSitemap ==>
      crawler.requests == old(crawler.requests) && crawler.initialUrls == old(crawler.initialUrls)
  {
    var i := 0;
    while i < |visits| && visits[i].pick < |crawler.requests|
      invariant crawler.Valid()
      invariant crawler.useSitemap ==>
        crawler.requests == old(crawler.requests) && crawler.initialUrls == old(crawler.initialUrls)
    {
      crawler.HandleRequest(crawler.requests[visits[i].pick], visits[i].load, visits[i].now);
      i := i + 1;
    }
  }

  /** web_crawler.py's `CrawlerResult`: the raw records, their URLs and
      `initial_urls`. */
  datatype CrawlerResult = CrawlerResult(content: seq<CrawledItem>, links: seq<string>, initialUrls: Option<seq<string>>)

  /** The `ValueError` raised for an invalid host URL. */
  datatype CrawlError = InvalidHostUrl

  /** The end of `crawl`: `crawled_data[:max_links]` as it is, its URLs,
      and `initial_urls`. */
  method Finish(crawler: WebCrawl) returns (result: CrawlerResult)
    requires crawler.Valid()
    ensures |crawler.crawledData| <= Max(0, crawler.maxLinks)
    ensures result.content == crawler.crawledData
    ensures result.links == CrawledUrls(result.content) && Distinct(result.links)
    ensures Elems(result.links) <= Elems(crawler.requests)
    ensures result.initialUrls == crawler.initialUrls
  {
    var content := PyPrefix(crawler.crawledData, crawler.maxLinks);
    assert content == crawler.crawledData;
    var links := CrawledUrls(content);
    result := CrawlerResult(content, links, crawler.initialUrls);
  }

  /** `crawl`: an invalid host raises before anything else; otherwise the
      handler runs on each visit the scheduler makes until it runs out of
      work, and the crawled records, cut to `max_links`, are returned
      unprocessed. In sitemap mode without a sitemap list, `crawler.run`
      fails on `None[:max_links]`, which is caught, and nothing is
      crawled. */
  method Crawl(hostUrl: string, maxLinks: int, useSitemap: bool, sitemapUrls: Option<seq<string>>, visits: seq<Visit>)
    returns (r: Result<CrawlerResult, CrawlError>)
    ensures r.Failure? <==> !BaseCrawler.IsValidUrl(hostUrl)
    ensures r.Success? ==> |r.value.content| <= Max(0, maxLinks)
    ensures r.Success? ==> r.value.links == CrawledUrls(r.value.content) && Distinct(r.value.links)
    ensures r.Success? && !useSitemap ==> AllWithinHost(Elems(r.value.links), hostUrl)
    ensures r.Success? && !useSitemap ==>
      r.value.initialUrls.Some? && AllWithinHost(Elems(r.value.initialUrls.value), hostUrl)
    ensures r.Success? && useSitemap ==> r.value.initialUrls == sitemapUrls
    ensures r.Success? && useSitemap ==>
      Elems(r.value.links) <= Elems(if sitemapUrls.Some? then PyPrefix(sitemapUrls.value, maxLinks) else [])
  {
    if !BaseCrawler.IsValidUrl(hostUrl) {
      return Failure(InvalidHostUrl);
    }
    var runFails := useSitemap && sitemapUrls.None?;
    var seeds :=
      if runFails then []
      else if useSitemap then PyPrefix(sitemapUrls.value, maxLinks)
      else [hostUrl];
    if !useSitemap {
      HostIsWithinHost(hostUrl);
      assert Elems(seeds) == {hostUrl};
    }
    var crawler := new WebCrawl(hostUrl, maxLinks, useSitemap, sitemapUrls, seeds);
    if !runFails {
      Run(crawler, visits);
    }
    var result := Finish(crawler);
    if !useSitemap {
      AllWithinHostSubset(Elems(result.links), Elems(crawler.requests), hostUrl);
    }
    r := Success(result);
  }
}
