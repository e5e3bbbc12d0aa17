/** base_crawler.py: the URL test that web_crawler.py inherits. It asks for
    an http or https scheme and a path that does not start with `tel:`, and
    does not ask for a host. */
module BaseCrawler {
  import opened Common
  import opened Urls

  /** `BaseCrawler.is_valid_url`. The `;params` that `urlparse` cuts off
      the last path segment cannot change the `tel:` test, since `tel:`
      holds no `;`, so the split of `Urlsplit` is used. */
  predicate IsValidUrl(url: string) {
    var parsed := Urlsplit(url);
    parsed.scheme in {"http", "https"} && !StartsWith(parsed.path, "tel:")
  }

  /** Accepted are the URLs that start with `http:` or `https:`, in any
      mix of cases, and whose path does not start with `tel:`. */
  lemma IsValidUrlIff(url: string)
    ensures IsValidUrl(url)
        <==> (StartsWith(Lower(url), "http:") || StartsWith(Lower(url), "https:"))
             && !StartsWith(Urlsplit(url).path, "tel:")
  {
    SchemeOfSplit(url);
    WebSchemeIffLowerPrefix(url);
  }

  /** A `tel:` link is rejected, by its scheme. */
  lemma RejectsTelLinks(url: string)
    requires StartsWith(url, "tel:")
    ensures !IsValidUrl(url)
  {
    assert url[..4] == "tel:";
    assert url[0] == 't' && url[1] == 'e' && url[2] == 'l' && url[3] == ':';
    var colon := Find(url, ':');
    assert url[3] in url;
    assert colon == 3;
    assert |SplitScheme(url).0| == 3;
    SchemeOfSplit(url);
  }

  /** Every http or https URL with a host part and an empty or rooted
      path is accepted. */
  lemma AcceptsWebUrl(scheme: string, netloc: string, path: string)
    requires scheme == "http" || scheme == "https"
    requires forall k :: 0 <= k < |netloc| ==> netloc[k] !in "/?#"
    requires path == "" || path[0] == '/'
    requires '?' !in path && '#' !in path
    ensures IsValidUrl(scheme + "://" + netloc + path)
  {
    var url := scheme + "://" + netloc + path;
    SplitOfWebUrl(scheme, netloc, path);
    RootedIsNotTel(path);
    assert Urlsplit(url).path == path && Urlsplit(url).scheme == scheme;
  }

  /** An empty or rooted path does not start with `tel:`. */
  lemma RootedIsNotTel(path: string)
    requires path == "" || path[0] == '/'
    ensures !StartsWith(path, "tel:")
  {
    if |path| >= 4 {
      assert path[..4][0] == '/';
    }
  }

  /** No host is needed: `http:` or `https:` followed by a bare path, such
      as `http:foo`, is accepted although its network location is empty. */
  lemma AcceptsUrlWithoutHost(scheme: string, path: string)
    requires scheme == "http" || scheme == "https"
    requires !StartsWith(path, "//") && !StartsWith(path, "tel:")
    requires '?' !in path && '#' !in path
    ensures IsValidUrl(scheme + ":" + path)
    ensures Urlsplit(scheme + ":" + path).netloc == ""
  {
    SplitSchemeOfWebUrl(scheme, path);
    SplitOfPlainTail(path);
  }
}
