/** utils.py: removal by index (the same code as text_extractor.py's) and
    what `fetch_sitemap` decides once the GET of the sitemap is over. The
    GET itself and the XML parser are outside the model: their outcome is
    the input of `FetchSitemap`. aio.py's `fetch_sitemap` is the same
    code with logging in place of `print`. */
module Utils {
  import opened Common
  import opened Urls
  import TextExtractor

  /** `remove_url_by_index` of utils.py (a coroutine there; awaiting it
      does the same as the synchronous version of text_extractor.py). */
  method RemoveUrlByIndex<T>(data: ListRef<T>, index: int) returns (same: ListRef<T>, removed: Option<T>)
    modifies data
    ensures same == data
    ensures 0 <= index < |old(data.elems)| ==>
      removed == Some(old(data.elems)[index]) && data.elems == RemoveAt(old(data.elems), index)
    ensures !(0 <= index < |old(data.elems)|) ==> removed == None && data.elems == old(data.elems)
  {
    same, removed := TextExtractor.RemoveUrlByIndex(data, index);
  }

  /** What `ET.fromstring` made of the body: a parse error, or the `loc`
      elements under `url` in the sitemap namespace, each with its text
      (`None` for an element without text). */
  datatype XmlParse = ParseError | Parsed(locTexts: seq<Option<string>>)

  /** What `await response.text()` gave: a failure of the transfer (an
      `aiohttp.ClientError`), a body that does not decode in the response's
      charset (`UnicodeDecodeError`), or the decoded text as parsed. */
  datatype ResponseBody = ReadFailed | Undecodable | Decoded(xml: XmlParse)

  /** The outcome of `session.get(sitemap_url)`: the connection failed
      (an `aiohttp.ClientError`) or a response came back. */
  datatype SitemapResponse = ClientFailure | HttpResponse(status: int, body: ResponseBody)

  /** The one exception `fetch_sitemap` lets escape. */
  datatype SitemapError = UndecodableSitemap

  /** The name of the sitemap, relative to the host URL. */
  const SitemapName := "sitemap.xml"

  /** `urljoin(host_url, 'sitemap.xml')`. */
  function SitemapUrl(hostUrl: string): string {
    Join(hostUrl, SitemapName)
  }

  /** The name is one plain path segment, with no scheme, query or fragment. */
  lemma SitemapNameIsPlain()
    ensures IsPlainSegment(SitemapName) && SitemapName[0] != '/'
    ensures ':' !in SitemapName && '?' !in SitemapName && '#' !in SitemapName
  {
  }

  /** `[loc.text for loc in ... if loc is not None and loc.text]`. */
  function NonEmptyTexts(locs: seq<Option<string>>): (urls: seq<string>)
    ensures |urls| <= |locs|
  {
    if locs == [] then []
    else (if locs[0].Some? && locs[0].value != "" then [locs[0].value] else []) + NonEmptyTexts(locs[1..])
  }

  /** Kept are exactly the non-empty texts. */
  lemma {:induction false} NonEmptyTextsMembers(locs: seq<Option<string>>)
    ensures forall u :: u in NonEmptyTexts(locs) <==> u != "" && Some(u) in locs
  {
    if locs != [] {
      NonEmptyTextsMembers(locs[1..]);
      assert locs == [locs[0]] + locs[1..];
    }
  }

  /** The filter keeps document order: it distributes over concatenation. */
  lemma {:induction false} NonEmptyTextsAppend(a: seq<Option<string>>, b: seq<Option<string>>)
    ensures NonEmptyTexts(a + b) == NonEmptyTexts(a) + NonEmptyTexts(b)
  {
    if a == [] {
      assert a + b == b;
    } else {
      var ab := a + b;
      assert ab[0] == a[0] && ab[1..] == a[1..] + b;
      NonEmptyTextsAppend(a[1..], b);
      var head := if a[0].Some? && a[0].value != "" then [a[0].value] else [];
      assert NonEmptyTexts(ab) == head + NonEmptyTexts(a[1..] + b);
      assert NonEmptyTexts(a) == head + NonEmptyTexts(a[1..]);
      AppendAssoc(head, NonEmptyTexts(a[1..]), NonEmptyTexts(b));
    }
  }

  /** `fetch_sitemap` after the request: `[]` on every caught failure
      (a client error, a status other than 200, a parse error) and when no
      `loc` has text; the non-empty `loc` texts otherwise. A body that does
      not decode raises, since `UnicodeDecodeError` is not among the
      exceptions caught. */
  function FetchSitemap(response: SitemapResponse): (r: Result<seq<string>, SitemapError>)
    ensures r.Failure? <==> response.HttpResponse? && response.status == 200 && response.body.Undecodable?
    ensures r.Success? ==> forall u :: u in r.value ==> u != ""
    ensures r.Success? && r.value != [] ==>
      response.HttpResponse? && response.status == 200 && response.body.Decoded? && response.body.xml.Parsed?
      && r.value == NonEmptyTexts(response.body.xml.locTexts)
  {
    match response
    case ClientFailure => Success([])
    case HttpResponse(status, body) =>
      if status != 200 then Success([])
      else
        match body
        case ReadFailed => Success([])
        case Undecodable => Failure(UndecodableSitemap)
        case Decoded(ParseError) => Success([])
        case Decoded(Parsed(locs)) =>
          NonEmptyTextsMembers(locs);
          var sitemapUrls := NonEmptyTexts(locs);
          if sitemapUrls == [] then Success([]) else Success(sitemapUrls)
  }

  /** A status other than 200 means falling back, whatever the body. */
  lemma FetchSitemapFallsBackOnHttpError(status: int, body: ResponseBody)
    requires status != 200
    ensures FetchSitemap(HttpResponse(status, body)) == Success([])
  {
  }

  /** A body that is not well-formed XML means falling back, not raising. */
  lemma FetchSitemapFallsBackOnParseError()
    ensures FetchSitemap(HttpResponse(200, Decoded(ParseError))) == Success([])
  {
  }

  /** A parsed sitemap gives exactly its non-empty `loc` texts, in order
      (the empty list when there is none). */
  lemma FetchSitemapKeepsLocOrder(a: seq<Option<string>>, b: seq<Option<string>>)
    ensures FetchSitemap(HttpResponse(200, Decoded(Parsed(a + b))))
         == Success(NonEmptyTexts(a) + NonEmptyTexts(b))
  {
    NonEmptyTextsAppend(a, b);
  }

  /** A `loc` without text or with empty text contributes nothing. */
  lemma {:induction false} NonEmptyTextsSkipsEmpty(a: seq<Option<string>>, b: seq<Option<string>>)
    ensures NonEmptyTexts(a + [None, Some("")] + b) == NonEmptyTexts(a + b)
  {
    var m: seq<Option<string>> := [None, Some("")];
    assert NonEmptyTexts(m) == [] by {
      assert m[1..] == [Some("")];
      assert [Some("")][1..] == [];
    }
    NonEmptyTextsAppend(a + m, b);
    NonEmptyTextsAppend(a, m);
    NonEmptyTextsAppend(a, b);
  }

  /** The sitemap is looked for in the directory of the host URL's path,
      resolved as `urljoin` resolves a relative reference. */
  lemma SitemapUrlOfWebHost(scheme: string, netloc: string, path: string)
    requires scheme == "http" || scheme == "https"
    requires netloc != "" && forall k :: 0 <= k < |netloc| ==> netloc[k] !in "/?#"
    requires path == "" || path[0] == '/'
    requires '?' !in path && '#' !in path
    ensures SitemapUrl(scheme + "://" + netloc + path)
         == scheme + "://" + netloc + RootedPath(MergePaths(path, SitemapName))
  {
    SitemapNameIsPlain();
    JoinOfRelativePath(scheme, netloc, path, SitemapName);
  }

  /** A host URL with no path has its sitemap at the root. */
  lemma SitemapOfBareHost(scheme: string, netloc: string)
    requires scheme == "http" || scheme == "https"
    requires netloc != "" && forall k :: 0 <= k < |netloc| ==> netloc[k] !in "/?#"
    ensures SitemapUrl(scheme + "://" + netloc) == scheme + "://" + netloc + "/" + SitemapName
  {
    var host := scheme + "://" + netloc;
    assert host + "" == host;
    SitemapUrlOfWebHost(scheme, netloc, "");
    SitemapNameIsPlain();
    MergeOntoEmptyPath(SitemapName);
    var rooted := "/" + SitemapName;
    assert RootedPath(rooted) == rooted;
    AppendAssoc(host, "/", SitemapName);
  }

  /** Below a rooted path, the sitemap takes the place of the path's last
      segment: `https://example.com/blog/post` looks for
      `https://example.com/blog/sitemap.xml`, and a path ending in `/`
      looks in that directory. */
  lemma SitemapBesideLastSegment(scheme: string, netloc: string, dirs: seq<string>, last: string)
    requires scheme == "http" || scheme == "https"
    requires netloc != "" && forall k :: 0 <= k < |netloc| ==> netloc[k] !in "/?#"
    requires forall k :: 0 <= k < |dirs| ==> IsPlainSegment(dirs[k])
    requires '/' !in last
    requires var path := JoinOn([""] + dirs + [last], '/'); '?' !in path && '#' !in path
    ensures SitemapUrl(scheme + "://" + netloc + JoinOn([""] + dirs + [last], '/'))
         == scheme + "://" + netloc + JoinOn([""] + dirs + [SitemapName], '/')
  {
    var path := JoinOn([""] + dirs + [last], '/');
    JoinOnCons([""] + dirs + [last], '/');
    SitemapUrlOfWebHost(scheme, netloc, path);
    SitemapBesideInPath(dirs, last);
    var merged := JoinOn([""] + dirs + [SitemapName], '/');
    assert RootedPath(merged) == merged;
  }

  /** The path part of `SitemapBesideLastSegment`. */
  lemma SitemapBesideInPath(dirs: seq<string>, last: string)
    requires forall k :: 0 <= k < |dirs| ==> IsPlainSegment(dirs[k])
    requires '/' !in last
    ensures var merged := JoinOn([""] + dirs + [SitemapName], '/');
      MergePaths(JoinOn([""] + dirs + [last], '/'), SitemapName) == merged
      && merged != "" && merged[0] == '/'
  {
    SitemapNameIsPlain();
    assert JoinOn([SitemapName], '/') == SitemapName;
    MergeOfPlainPaths(dirs, last, [SitemapName]);
    JoinOnCons([""] + dirs + [SitemapName], '/');
  }
}
