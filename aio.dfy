/** aio.py: the self-contained crawler. It checks the host URL, runs the
    request handler on each page the external scheduler hands it, keeps
    only links on the host's domain or a subdomain of it, and assembles
    the cleaned result. The scheduler, the browser and the clock are
    inputs: a sequence of `Visit`s. */
module Aio {
  import opened Common
  import opened Urls
  import opened Models
  import opened LinkContainers
  import opened TextProcessor
  import BaseCrawler
  import Utils

  /** `WebCrawler.is_valid_url` of aio.py: an http or https scheme, a
      non-empty network location and a path not starting with `tel:`. */
  predicate IsValidUrl(url: string) {
    var parsed := Urlsplit(url);
    parsed.scheme in {"http", "https"} && parsed.netloc != "" && !StartsWith(parsed.path, "tel:")
  }

  /** aio.py's test is base_crawler.py's plus a host. */
  lemma IsValidUrlIsBaseWithHost(url: string)
    ensures IsValidUrl(url) <==> BaseCrawler.IsValidUrl(url) && Urlsplit(url).netloc != ""
  {
  }

  /** Once a host is required, the `tel:` clause never rejects anything:
      a path after a host is empty or starts with `/`. */
  lemma TelClauseIsRedundant(url: string)
    ensures IsValidUrl(url) <==> Urlsplit(url).scheme in {"http", "https"} && Urlsplit(url).netloc != ""
  {
    var path := Urlsplit(url).path;
    if Urlsplit(url).netloc != "" {
      NetlocMakesPathAbsolute(url);
      assert !StartsWith(path, "tel:") by {
        if 4 <= |path| {
          assert path[..4][0] == '/';
        }
      }
    }
  }

  /** `tel:12345` and every other `tel:` URL is rejected, so `crawl` raises
      on it as a host. */
  lemma RejectsTelLinks(url: string)
    requires StartsWith(url, "tel:")
    ensures !IsValidUrl(url)
  {
    BaseCrawler.RejectsTelLinks(url);
  }

  /** `http:foo` passes base_crawler.py's test and fails this one. */
  lemma HostRequiredUnlikeBase(scheme: string, path: string)
    requires scheme == "http" || scheme == "https"
    requires !StartsWith(path, "//") && !StartsWith(path, "tel:")
    requires '?' !in path && '#' !in path
    ensures BaseCrawler.IsValidUrl(scheme + ":" + path) && !IsValidUrl(scheme + ":" + path)
  {
    BaseCrawler.AcceptsUrlWithoutHost(scheme, path);
  }

  /** `urlparse(url).netloc.replace('www.', '')`: every `www.` is removed,
      wherever it stands in the network location. */
  function Domain(url: string): string {
    RemoveAll(Urlsplit(url).netloc, "www.")
  }

  /** The domain test of `extract_valid_urls` on two domains. */
  predicate DomainInScope(urlDomain: string, hostDomain: string) {
    urlDomain == hostDomain || EndsWith(urlDomain, "." + hostDomain)
  }

  predicate InScope(url: string, hostDomain: string) {
    DomainInScope(Domain(url), hostDomain)
  }

  /** What `extract_valid_urls` asks of a resolved link. */
  predicate Accepts(url: string, hostDomain: string, processedUrls: set<string>) {
    InScope(url, hostDomain) && url !in processedUrls && IsValidUrl(url)
  }

  /** A host part free of `/`, `?` and `#` after `www.` is free of them too. */
  lemma WwwNetlocChars(d: string)
    requires forall k :: 0 <= k < |d| ==> d[k] !in "/?#"
    ensures var n := "www." + d; forall k :: 0 <= k < |n| ==> n[k] !in "/?#"
  {
    NetlocTextAppend("www.", d);
  }

  /** A leading `www.` is removed, and the rest is scanned as it is. */
  lemma RemoveLeadingWww(d: string)
    ensures RemoveAll("www." + d, "www.") == RemoveAll(d, "www.")
  {
    var s := "www." + d;
    assert s[..4] == "www." && s[4..] == d;
  }

  /** An http or https URL on `www.` and a name has the same domain as
      one on the name alone: the name with every `www.` removed. */
  lemma WwwHostSameDomain(scheme: string, d: string, path: string)
    requires scheme == "http" || scheme == "https"
    requires forall k :: 0 <= k < |d| ==> d[k] !in "/?#"
    requires path == "" || path[0] == '/'
    requires '?' !in path && '#' !in path
    ensures Domain(scheme + "://www." + d + path) == RemoveAll(d, "www.")
    ensures Domain(scheme + "://" + d + path) == RemoveAll(d, "www.")
  {
    WwwNetlocChars(d);
    WwwUrlRegroup(scheme, d, path);
    DomainOfWebUrl(scheme, "www." + d, path, scheme + "://www." + d + path);
    RemoveLeadingWww(d);
    DomainOfWebUrl(scheme, d, path, scheme + "://" + d + path);
  }

  lemma WwwUrlRegroup(scheme: string, d: string, path: string)
    ensures scheme + "://www." + d + path == scheme + "://" + ("www." + d) + path
  {
    assert "://" + "www." == "://www.";
    AppendAssoc(scheme, "://", "www.");
    AppendAssoc(scheme + "://", "www.", d);
  }

  /** The domain of an http or https URL is its host part with every
      `www.` removed. */
  lemma DomainOfWebUrl(scheme: string, netloc: string, path: string, url: string)
    requires scheme == "http" || scheme == "https"
    requires forall k :: 0 <= k < |netloc| ==> netloc[k] !in "/?#"
    requires path == "" || path[0] == '/'
    requires '?' !in path && '#' !in path
    requires url == scheme + "://" + netloc + path
    ensures Domain(url) == RemoveAll(netloc, "www.")
  {
    SplitOfWebUrl(scheme, netloc, path);
  }

  /** The domain of an http or https URL whose host is `www.` and a name
      without `w`, and of one whose host is that name: the name. */
  lemma DomainOfWwwHost(scheme: string, d: string, path: string)
    requires scheme == "http" || scheme == "https"
    requires 'w' !in d && forall k :: 0 <= k < |d| ==> d[k] !in "/?#"
    requires path == "" || path[0] == '/'
    requires '?' !in path && '#' !in path
    ensures Domain(scheme + "://www." + d + path) == d
    ensures Domain(scheme + "://" + d + path) == d
  {
    WwwHostSameDomain(scheme, d, path);
    RemoveAllAbsent(d, "www.");
  }

  /** `www.` makes no difference to the scope: a page on `www.` and the
      host's name is in the scope of the bare name, and the other way
      round. */
  lemma WwwHostSharesScope(scheme: string, d: string, path: string)
    requires scheme == "http" || scheme == "https"
    requires forall k :: 0 <= k < |d| ==> d[k] !in "/?#"
    requires path == "" || path[0] == '/'
    requires '?' !in path && '#' !in path
    ensures InScope(scheme + "://www." + d + path, Domain(scheme + "://" + d))
    ensures InScope(scheme + "://" + d + path, Domain(scheme + "://www." + d))
  {
    WwwHostSameDomain(scheme, d, path);
    WwwHostSameDomain(scheme, d, "");
    assert scheme + "://www." + d + "" == scheme + "://www." + d;
    assert scheme + "://" + d + "" == scheme + "://" + d;
  }

  /** Every subdomain of the host's domain is in scope. */
  lemma SubdomainInScope(sub: string, d: string)
    ensures DomainInScope(sub + "." + d, d)
  {
    var u := sub + "." + d;
    assert u[|u| - |"." + d|..] == "." + d;
  }

  /** A domain that merely ends with the host's domain, without a dot
      before it (`notexample.com` for `example.com`), is out of scope. */
  lemma LookalikeOutOfScope(p: string, d: string)
    requires p != "" && p[|p| - 1] != '.'
    ensures !DomainInScope(p + d, d)
  {
    var u := p + d;
    assert u[|u| - |"." + d|] == p[|p| - 1];
  }

  /** Removing a pattern leaves a prefix that holds no start of it alone. */
  lemma {:induction false} RemoveAllSkipsPlainPrefix(p: string, s: string, pattern: string)
    requires pattern != [] && pattern[0] !in p
    ensures RemoveAll(p + s, pattern) == p + RemoveAll(s, pattern)
    decreases |p|
  {
    if p != [] {
      var u := p + s;
      assert u[0] == p[0] && u[1..] == p[1..] + s;
      RemoveAllSkipsPlainPrefix(p[1..], s, pattern);
      if |pattern| <= |u| {
        assert u[..|pattern|][0] == p[0];
        assert RemoveAll(u, pattern) == [p[0]] + RemoveAll(u[1..], pattern);
        var r := RemoveAll(s, pattern);
        assert [p[0]] + (p[1..] + r) == p + r;
        assert RemoveAll(u, pattern) == p + r;
      } else {
        assert RemoveAll(s, pattern) == s;
        assert RemoveAll(u, pattern) == u;
      }
    } else {
      assert p + s == s;
    }
  }

  /** Since every `www.` is removed, wherever it stands, `www.example.com`
      and `example.www.com` both give the domain `example.com`. */
  lemma WwwAnywhereIsRemoved(p: string, d: string)
    requires 'w' !in p && 'w' !in d
    ensures RemoveAll(p + "www." + d, "www.") == p + d
  {
    var www := "www.";
    RemoveAllSkipsPlainPrefix(p, www + d, www);
    var t := www + d;
    assert t[..4] == www && t[4..] == d;
    RemoveAllAbsent(d, www);
    assert p + www + d == p + t;
  }

  /** The links of `urls` that `Accepts` keeps, in order. */
  function AcceptedOf(urls: seq<string>, hostDomain: string, processedUrls: set<string>): seq<string> {
    if urls == [] then []
    else
      var last := urls[|urls| - 1];
      AcceptedOf(urls[..|urls| - 1], hostDomain, processedUrls) + (if Accepts(last, hostDomain, processedUrls) then [last] else [])
  }

  /** The filter keeps exactly the accepted links. */
  lemma {:induction false} AcceptedOfMembers(urls: seq<string>, hostDomain: string, processedUrls: set<string>)
    ensures forall u :: u in AcceptedOf(urls, hostDomain, processedUrls) <==> u in urls && Accepts(u, hostDomain, processedUrls)
  {
    if urls != [] {
      var init := urls[..|urls| - 1];
      AcceptedOfMembers(init, hostDomain, processedUrls);
      assert urls == init + [urls[|urls| - 1]];
    }
  }

  /** One more link extends the filtered list by that link, if accepted. */
  lemma AcceptedOfSnoc(urls: seq<string>, u: string, hostDomain: string, processedUrls: set<string>)
    ensures AcceptedOf(urls + [u], hostDomain, processedUrls)
         == AcceptedOf(urls, hostDomain, processedUrls) + (if Accepts(u, hostDomain, processedUrls) then [u] else [])
  {
    assert (urls + [u])[..|urls|] == urls;
  }

  /** The joined links of one more container. */
  lemma JoinedLinksSnoc(cs: seq<Container>, i: nat, base: string)
    requires i < |cs|
    ensures JoinedLinks(cs[..i + 1], base)
         == JoinedLinks(cs[..i], base) + (if cs[i].links.Some? then JoinAll(base, cs[i].links.value) else [])
  {
    assert cs[..i + 1][..i] == cs[..i];
  }

  /** The filter distributes over concatenation. */
  lemma {:induction false} AcceptedOfAppend(a: seq<string>, b: seq<string>, hostDomain: string, processedUrls: set<string>)
    ensures AcceptedOf(a + b, hostDomain, processedUrls)
         == AcceptedOf(a, hostDomain, processedUrls) + AcceptedOf(b, hostDomain, processedUrls)
    decreases |b|
  {
    if b == [] {
      assert a + b == a;
    } else {
      var init, last := b[..|b| - 1], b[|b| - 1];
      assert a + b == (a + init) + [last];
      assert (a + b)[..|a + b| - 1] == a + init;
      AcceptedOfAppend(a, init, hostDomain, processedUrls);
      var tail := if Accepts(last, hostDomain, processedUrls) then [last] else [];
      AppendAssoc(AcceptedOf(a, hostDomain, processedUrls), AcceptedOf(init, hostDomain, processedUrls), tail);
    }
  }

  /** Resolving and filtering one more link of a container. */
  lemma AcceptedJoinedSnoc(links: seq<string>, j: nat, hostUrl: string, hostDomain: string, processedUrls: set<string>)
    requires j < |links|
    ensures var fullUrl := Join(hostUrl, links[j]);
      AcceptedOf(JoinAll(hostUrl, links[..j + 1]), hostDomain, processedUrls)
      == AcceptedOf(JoinAll(hostUrl, links[..j]), hostDomain, processedUrls)
         + (if Accepts(fullUrl, hostDomain, processedUrls) then [fullUrl] else [])
  {
    JoinAllSnoc(hostUrl, links, j);
    AcceptedOfSnoc(JoinAll(hostUrl, links[..j]), Join(hostUrl, links[j]), hostDomain, processedUrls);
  }

  /** Resolving and filtering the links of one more container. */
  lemma AcceptedJoinedLinksSnoc(cs: seq<Container>, i: nat, hostUrl: string, hostDomain: string, processedUrls: set<string>)
    requires i < |cs|
    ensures AcceptedOf(JoinedLinks(cs[..i + 1], hostUrl), hostDomain, processedUrls)
         == AcceptedOf(JoinedLinks(cs[..i], hostUrl), hostDomain, processedUrls)
            + (if cs[i].links.Some? then AcceptedOf(JoinAll(hostUrl, cs[i].links.value), hostDomain, processedUrls) else [])
  {
    JoinedLinksSnoc(cs, i, hostUrl);
    if cs[i].links.Some? {
      AcceptedOfAppend(JoinedLinks(cs[..i], hostUrl), JoinAll(hostUrl, cs[i].links.value), hostDomain, processedUrls);
    } else {
      assert JoinedLinks(cs[..i], hostUrl) + [] == JoinedLinks(cs[..i], hostUrl);
      assert AcceptedOf(JoinedLinks(cs[..i], hostUrl), hostDomain, processedUrls) + []
          == AcceptedOf(JoinedLinks(cs[..i], hostUrl), hostDomain, processedUrls);
    }
  }

  /** The inner loop of `extract_valid_urls` over one container's links:
      the accepted resolved links are appended to `validUrls`, in order. */
  method AppendAccepted(validUrls: seq<string>, links: seq<string>, hostUrl: string, hostDomain: string,
                        processedUrls: set<string>)
    returns (extended: seq<string>)
    ensures extended == validUrls + AcceptedOf(JoinAll(hostUrl, links), hostDomain, processedUrls)
  {
    extended := validUrls;
    ghost var kept: seq<string> := [];
    assert links[..0] == [];
    for j := 0 to |links|
      invariant kept == AcceptedOf(JoinAll(hostUrl, links[..j]), hostDomain, processedUrls)
      invariant extended == validUrls + kept
    {
      var fullUrl := Join(hostUrl, links[j]);
      var urlDomain := Domain(fullUrl);
      AcceptedJoinedSnoc(links, j, hostUrl, hostDomain, processedUrls);
      if DomainInScope(urlDomain, hostDomain) && fullUrl !in processedUrls && IsValidUrl(fullUrl) {
        AppendAssoc(validUrls, kept, [fullUrl]);
        extended := extended + [fullUrl];
        kept := kept + [fullUrl];
      }
    }
    assert links[..|links|] == links;
  }

  /** `extract_valid_urls`: the resolved links of the containers that have
      a `links` list, kept when on the host's domain or a subdomain, not
      processed yet and valid, each once (`list(set(...))`, in an order the
      language leaves open). */
  method ExtractValidUrls(containers: seq<Container>, hostUrl: string, processedUrls: set<string>)
    returns (urls: seq<string>)
    ensures Distinct(urls)
    ensures Elems(urls) == Elems(AcceptedOf(JoinedLinks(containers, hostUrl), Domain(hostUrl), processedUrls))
  {
    var validUrls: seq<string> := [];
    var hostDomain := RemoveAll(Urlsplit(hostUrl).netloc, "www.");
    for i := 0 to |containers|
      invariant validUrls == AcceptedOf(JoinedLinks(containers[..i], hostUrl), hostDomain, processedUrls)
    {
      var container := containers[i];
      AcceptedJoinedLinksSnoc(containers, i, hostUrl, hostDomain, processedUrls);
      if container.links.Some? {
        validUrls := AppendAccepted(validUrls, container.links.value, hostUrl, hostDomain, processedUrls);
      }
    }
    assert containers[..|containers|] == containers;
    urls := SetToSeq(Elems(validUrls));
  }

  /** `process_crawled_item` over a list, as the comprehension does it. */
  function ProcessAll(items: seq<CrawledItem>): (r: seq<ProcessedItem>)
    ensures |r| == |items|
    ensures forall k :: 0 <= k < |items| ==> r[k] == ProcessCrawledItem(items[k])
  {
    seq(|items|, k requires 0 <= k < |items| => ProcessCrawledItem(items[k]))
  }

  datatype CrawlerResult = CrawlerResult(content: seq<ProcessedItem>, links: seq<string>, uniqueInitialUrls: seq<string>)

  /** The `ValueError` raised for an invalid host URL. */
  datatype CrawlError = InvalidHostUrl

  /** A URL a crawl of `hostUrl` may visit outside sitemap mode. */
  predicate Admissible(u: string, hostUrl: string) {
    IsValidUrl(u) && InScope(u, Domain(hostUrl))
  }

  /** Every URL of `urls` may be visited. */
  predicate AllAdmissible(urls: set<string>, hostUrl: string) {
    forall u :: u in urls ==> Admissible(u, hostUrl)
  }

  /** A valid host URL is one the crawl may visit. */
  lemma HostIsAdmissible(hostUrl: string)
    requires IsValidUrl(hostUrl)
    ensures Admissible(hostUrl, hostUrl)
  {
  }

  /** `set(sitemap_urls or [])`. */
  function GivenUrls(sitemapUrls: Option<seq<string>>): set<string> {
    if sitemapUrls.Some? then Elems(sitemapUrls.value) else {}
  }

  /** A link a page with `elements` yields: a resolved link of one of its
      top three link containers that `Accepts` keeps. */
  ghost predicate Discovered(u: string, elements: seq<Element>, hostUrl: string, processedUrls: set<string>) {
    u in JoinedLinks(TopLinkContainers(elements), hostUrl) && Accepts(u, Domain(hostUrl), processedUrls)
  }

  /** `find_top_link_containers` followed by `extract_valid_urls`. */
  method PageLinks(elements: seq<Element>, hostUrl: string, processedUrls: set<string>) returns (pageUrls: seq<string>)
    ensures Distinct(pageUrls)
    ensures forall u :: u in pageUrls <==> Discovered(u, elements, hostUrl, processedUrls)
    ensures forall u :: u in pageUrls ==> u !in processedUrls && IsValidUrl(u) && InScope(u, Domain(hostUrl))
  {
    var topContainers := TopLinkContainers(elements);
    pageUrls := ExtractValidUrls(topContainers, hostUrl, processedUrls);
    AcceptedOfMembers(JoinedLinks(topContainers, hostUrl), Domain(hostUrl), processedUrls);
    assert forall u :: u in pageUrls <==> u in Elems(pageUrls);
  }

  /** The state that the request handler of `crawl` shares with its
      enclosing call: `crawled_data`, `processed_urls`,
      `unique_initial_urls` and `is_first_page`, with the requests handed
      to the crawler (the seeds of `crawler.run`, then every
      `add_requests`). */
  class AioCrawl {
    const hostUrl: string
    const maxLinks: int
    const useSitemap: bool
    /** `set(sitemap_urls or [])`, what `unique_initial_urls` starts as. */
    const givenInitialUrls: set<string>
    var crawledData: seq<CrawledItem>
    var processedUrls: set<string>
    var uniqueInitialUrls: set<string>
    var isFirstPage: bool
    var requests: seq<string>

    /** What holds between two handler calls. */
    ghost predicate Valid()
      reads this
    {
      && (|crawledData| <= maxLinks || crawledData == [])
      && Distinct(CrawledUrls(crawledData))
      && processedUrls == Elems(CrawledUrls(crawledData))
      && (forall k :: 0 <= k < |crawledData| ==> crawledData[k].url in requests)
      && givenInitialUrls <= uniqueInitialUrls
      && (!useSitemap ==> AllAdmissible(Elems(requests), hostUrl))
      && (!useSitemap ==> AllAdmissible(uniqueInitialUrls - givenInitialUrls, hostUrl))
      && (useSitemap ==> !isFirstPage)
    }

    /** The set-up of `crawl` before `crawler.run(seeds)`. */
    constructor (hostUrl: string, maxLinks: int, useSitemap: bool, initialUrls: set<string>, seeds: seq<string>)
      requires !useSitemap ==> AllAdmissible(Elems(seeds), hostUrl)
      ensures Valid()
      ensures this.hostUrl == hostUrl && this.maxLinks == maxLinks && this.useSitemap == useSitemap
      ensures givenInitialUrls == initialUrls
      ensures crawledData == [] && processedUrls == {} && uniqueInitialUrls == initialUrls
      ensures isFirstPage == !useSitemap && requests == seeds
    {
      this.hostUrl := hostUrl;
      this.maxLinks := maxLinks;
      this.useSitemap := useSitemap;
      givenInitialUrls := initialUrls;
      crawledData := [];
      processedUrls := {};
      uniqueInitialUrls := initialUrls;
      isFirstPage := !useSitemap;
      requests := seeds;
    }

    /** `crawler.add_requests([link])` for each link of the page not
        processed yet, in order, while the budget is not used up. */
    method AddRequests(pageUrls: seq<string>)
      modifies this
      ensures |crawledData| < maxLinks ==> requests == old(requests) + Unvisited(pageUrls, processedUrls)
      ensures |crawledData| >= maxLinks ==> requests == old(requests)
      ensures crawledData == old(crawledData) && processedUrls == old(processedUrls)
      ensures uniqueInitialUrls == old(uniqueInitialUrls) && isFirstPage == old(isFirstPage)
    {
      ghost var before := requests;
      assert pageUrls[..0] == [];
      for i := 0 to |pageUrls|
        invariant crawledData == old(crawledData) && processedUrls == old(processedUrls)
        invariant uniqueInitialUrls == old(uniqueInitialUrls) && isFirstPage == old(isFirstPage)
        invariant requests == before + Unvisited(pageUrls[..i], processedUrls)
        invariant |crawledData| >= maxLinks ==> requests == before
      {
        if |crawledData| >= maxLinks {
          return;
        }
        var link := pageUrls[i];
        UnvisitedSnoc(pageUrls, i, processedUrls);
        if link !in processedUrls {
          AppendAssoc(before, Unvisited(pageUrls[..i], processedUrls), [link]);
          requests := requests + [link];
        }
      }
      assert pageUrls[..|pageUrls|] == pageUrls;
    }

    /** `crawled_data.append(...)` and `processed_urls.add(current_url)`
        for a page loaded within the budget. */
    method Record(item: CrawledItem)
      requires Valid() && item.url in requests && item.url !in processedUrls && |crawledData| < maxLinks
      modifies this
      ensures Valid()
      ensures crawledData == old(crawledData) + [item] && processedUrls == old(processedUrls) + {item.url}
      ensures requests == old(requests) && uniqueInitialUrls == old(uniqueInitialUrls) && isFirstPage == old(isFirstPage)
    {
      CrawledUrlsSnoc(crawledData, item);
      crawledData := crawledData + [item];
      processedUrls := processedUrls + {item.url};
    }

    /** The link phase of `request_handler` outside sitemap mode, once the
        page is recorded and the budget is not used up: the top link
        containers' accepted links become the first page's initial URLs
        and new requests. */
    method FollowLinks(elements: seq<Element>)
      requires Valid() && !useSitemap && |crawledData| < maxLinks
      modifies this
      ensures Valid()
      ensures crawledData == old(crawledData) && processedUrls == old(processedUrls)
      ensures old(|requests|) <= |requests| && requests[..old(|requests|)] == old(requests)
      ensures Distinct(requests[old(|requests|)..])
      ensures forall u :: u in requests[old(|requests|)..] <==> Discovered(u, elements, hostUrl, processedUrls)
      ensures uniqueInitialUrls
           == (if old(isFirstPage) then old(uniqueInitialUrls) + Elems(requests[old(|requests|)..])
               else old(uniqueInitialUrls))
      ensures !isFirstPage
    {
      var pageUrls := PageLinks(elements, hostUrl, processedUrls);
      if isFirstPage {
        uniqueInitialUrls := uniqueInitialUrls + Elems(pageUrls);
        isFirstPage := false;
      }
      ghost var before := requests;
      AddRequests(pageUrls);
      UnvisitedOfFresh(pageUrls, processedUrls);
      assert requests[|before|..] == pageUrls;
      assert requests[..|before|] == before;
      assert forall k :: 0 <= k < |crawledData| ==> crawledData[k].url in before;
    }

    /** `request_handler` on the request for `url`, with what the browser
        made of the page and the clock reading. */
    method HandleRequest(url: string, load: PageLoad, now: Timestamp)
      requires Valid() && url in requests
      modifies this
      ensures Valid()
      ensures old(|crawledData|) >= maxLinks || url in old(processedUrls) || load.LoadFailed? ==>
        crawledData == old(crawledData) && processedUrls == old(processedUrls)
        && uniqueInitialUrls == old(uniqueInitialUrls) && isFirstPage == old(isFirstPage) && requests == old(requests)
      ensures old(|crawledData|) < maxLinks && url !in old(processedUrls) && load.Loaded? ==>
        crawledData == old(crawledData) + [CrawledItem(url, load.title, load.textContent, now)]
        && processedUrls == old(processedUrls) + {url}
      ensures old(|crawledData|) < maxLinks && url !in old(processedUrls) && load.Loaded?
              && |crawledData| < maxLinks && !useSitemap && load.elements.Some? ==>
        && old(|requests|) <= |requests| && requests[..old(|requests|)] == old(requests)
        && Distinct(requests[old(|requests|)..])
        && (forall u :: u in requests[old(|requests|)..] <==> Discovered(u, load.elements.value, hostUrl, processedUrls))
        && uniqueInitialUrls
           == (if old(isFirstPage) then old(uniqueInitialUrls) + Elems(requests[old(|requests|)..])
               else old(uniqueInitialUrls))
        && !isFirstPage
      ensures !(old(|crawledData|) < maxLinks && url !in old(processedUrls) && load.Loaded?
                && |crawledData| < maxLinks && !useSitemap && load.elements.Some?) ==>
        requests == old(requests) && uniqueInitialUrls == old(uniqueInitialUrls) && isFirstPage == old(isFirstPage)
    {
      if |crawledData| >= maxLinks {
        return;
      }
      if url in processedUrls {
        return;
      }
      match load
      case LoadFailed =>
        return;
      case Loaded(title, textContent, elements) =>
        Record(CrawledItem(url, title, textContent, now));
        if |crawledData| >= maxLinks {
          return;
        }
        if !useSitemap {
          match elements
          case None =>
            return;
          case Some(els) =>
            FollowLinks(els);
        }
    }
  }

  /** Fewer URLs stay admissible. */
  lemma AllAdmissibleSubset(a: set<string>, b: set<string>, hostUrl: string)
    requires a <= b && AllAdmissible(b, hostUrl)
    ensures AllAdmissible(a, hostUrl)
  {
  }

  /** `crawler.run(seeds)`: the handler runs on the request the scheduler
      picks at each visit, until a pick falls outside the requests made so
      far (the queue is drained) or the visits run out. */
  method Run(crawler: AioCrawl, visits: seq<Visit>)
    requires crawler.Valid()
    modifies crawler
    ensures crawler.Valid()
    ensures crawler.useSitemap ==>
      crawler.requests == old(crawler.requests) && crawler.uniqueInitialUrls == old(crawler.uniqueInitialUrls)
  {
    var i := 0;
    while i < |visits| && visits[i].pick < |crawler.requests|
      invariant crawler.Valid()
      invariant crawler.useSitemap ==>
        crawler.requests == old(crawler.requests) && crawler.uniqueInitialUrls == old(crawler.uniqueInitialUrls)
    {
      crawler.HandleRequest(crawler.requests[visits[i].pick], visits[i].load, visits[i].now);
      i := i + 1;
    }
  }

  /** The end of `crawl`: `crawled_data[:max_links]` cleaned, its URLs,
      and `list(unique_initial_urls)`. */
  method Finish(crawler: AioCrawl) returns (result: CrawlerResult)
    requires crawler.Valid()
    ensures |crawler.crawledData| <= Max(0, crawler.maxLinks)
    ensures result.content == ProcessAll(crawler.crawledData)
    ensures result.links == ProcessedUrls(result.content) && Distinct(result.links)
    ensures Elems(result.links) <= Elems(crawler.requests)
    ensures Distinct(result.uniqueInitialUrls) && Elems(result.uniqueInitialUrls) == crawler.uniqueInitialUrls
  {
    var kept := PyPrefix(crawler.crawledData, crawler.maxLinks);
    assert kept == crawler.crawledData;
    var processedData := ProcessAll(kept);
    var uniqueInitialUrls := SetToSeq(crawler.uniqueInitialUrls);
    assert ProcessedUrls(processedData) == CrawledUrls(kept);
    result := CrawlerResult(processedData, ProcessedUrls(processedData), uniqueInitialUrls);
  }

  /** `crawl`: an invalid host raises before anything else; otherwise the
      handler runs on each visit the scheduler makes until it runs out of
      work, and the crawled records, cut to `max_links`, are cleaned. In
      sitemap mode without a sitemap list, `crawler.run` fails on
      `None[:max_links]`, which is caught, and nothing is crawled. */
  method Crawl(hostUrl: string, maxLinks: int, useSitemap: bool, sitemapUrls: Option<seq<string>>, visits: seq<Visit>)
    returns (r: Result<CrawlerResult, CrawlError>, ghost crawled: seq<CrawledItem>)
    ensures r.Failure? <==> !IsValidUrl(hostUrl)
    ensures r.Success? ==> r.value.content == ProcessAll(crawled) && |crawled| <= Max(0, maxLinks)
    ensures r.Success? ==> r.value.links == ProcessedUrls(r.value.content) && Distinct(r.value.links)
    ensures r.Success? ==> Distinct(r.value.uniqueInitialUrls)
    ensures r.Success? ==> GivenUrls(sitemapUrls) <= Elems(r.value.uniqueInitialUrls)
    ensures r.Success? && !useSitemap ==> AllAdmissible(Elems(r.value.links), hostUrl)
    ensures r.Success? && !useSitemap ==>
      AllAdmissible(Elems(r.value.uniqueInitialUrls) - GivenUrls(sitemapUrls), hostUrl)
    ensures r.Success? && useSitemap ==>
      Elems(r.value.links) <= Elems(if sitemapUrls.Some? then PyPrefix(sitemapUrls.value, maxLinks) else [])
    ensures r.Success? && useSitemap ==> Elems(r.value.uniqueInitialUrls) == GivenUrls(sitemapUrls)
  {
    crawled := [];
    if !IsValidUrl(hostUrl) {
      return Failure(InvalidHostUrl), crawled;
    }
    var runFails := useSitemap && sitemapUrls.None?;
    var seeds :=
      if runFails then []
      else if useSitemap then PyPrefix(sitemapUrls.value, maxLinks)
      else [hostUrl];
    if !useSitemap {
      HostIsAdmissible(hostUrl);
      assert Elems(seeds) == {hostUrl};
    }
    var crawler := new AioCrawl(hostUrl, maxLinks, useSitemap, GivenUrls(sitemapUrls), seeds);
    if !runFails {
      Run(crawler, visits);
    }
    var result := Finish(crawler);
    if !useSitemap {
      AllAdmissibleSubset(Elems(result.links), Elems(crawler.requests), hostUrl);
    }
    crawled := crawler.crawledData;
    r := Success(result);
  }

  /** Why `run_crawler_and_process` fails: the host URL is invalid, or the
      sitemap body did not decode. */
  datatype RunError = InvalidHost | UndecodableSitemap

  /** `use_sitemap = bool(sitemap_urls)`: the sitemap list that the crawl
      is given, fetched only when asked for, and whether it is used. */
  function ChooseMode(useSitemap: bool, response: Utils.SitemapResponse): (r: Result<(bool, seq<string>), RunError>)
    ensures r.Failure? <==> useSitemap && Utils.FetchSitemap(response).Failure?
    ensures r.Success? ==> (r.value.0 <==> r.value.1 != [])
    ensures r.Success? && r.value.0 ==> useSitemap && r.value.1 == Utils.FetchSitemap(response).value
    ensures r.Success? && !r.value.0 ==>
      !useSitemap || Utils.FetchSitemap(response) == Success([])
  {
    if !useSitemap then Success((false, []))
    else
      match Utils.FetchSitemap(response)
      case Failure(_) => Failure(UndecodableSitemap)
      case Success(sitemapUrls) => Success((sitemapUrls != [], sitemapUrls))
  }

  /** `run_crawler_and_process`: sitemap mode only when the fetched list is
      not empty; regular crawling from the host otherwise. */
  method RunCrawlerAndProcess(hostUrl: string, desiredLinks: int, useSitemap: bool,
                              response: Utils.SitemapResponse, visits: seq<Visit>)
    returns (r: Result<CrawlerResult, RunError>)
    ensures r.Failure? <==> (useSitemap && Utils.FetchSitemap(response).Failure?) || !IsValidUrl(hostUrl)
    ensures r.Success? ==> |r.value.content| <= Max(0, desiredLinks)
    ensures r.Success? ==> r.value.links == ProcessedUrls(r.value.content) && Distinct(r.value.links)
    ensures r.Success? ==> Distinct(r.value.uniqueInitialUrls)
    ensures r.Success? && (!useSitemap || Utils.FetchSitemap(response) == Success([])) ==>
      AllAdmissible(Elems(r.value.links), hostUrl) && AllAdmissible(Elems(r.value.uniqueInitialUrls), hostUrl)
    ensures r.Success? && useSitemap && Utils.FetchSitemap(response).Success? && Utils.FetchSitemap(response).value != [] ==>
      Elems(r.value.links) <= Elems(PyPrefix(Utils.FetchSitemap(response).value, desiredLinks))
      && Elems(r.value.uniqueInitialUrls) == Elems(Utils.FetchSitemap(response).value)
  {
    var mode := ChooseMode(useSitemap, response);
    if mode.Failure? {
      return Failure(UndecodableSitemap);
    }
    var (sitemapMode, sitemapUrls) := mode.value;
    var result, crawled := Crawl(hostUrl, desiredLinks, sitemapMode, Some(sitemapUrls), visits);
    if result.Failure? {
      return Failure(InvalidHost);
    }
    return Success(result.value);
  }
}
