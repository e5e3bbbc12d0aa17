/** The records the crawler passes around (the dataclasses of models.py and
    the pydantic models at the top of aio.py), and the abstract outcome of
    loading one page through the external browser. */
module Models {
  import opened Common
  import opened LinkContainers

  /** Capture time of a page (`datetime.now()`); the clock is an input. */
  type Timestamp = int

  datatype CrawledItem = CrawledItem(url: string, title: Text, textContent: Text, dateCrawled: Timestamp)

  datatype ProcessedItem = ProcessedItem(url: string, title: Text, textContent: Text, dateCrawled: Timestamp)

  /** What the request handler gets from the browser for one page:
      the load or HTML parse failed, or it yielded the title ("No title"
      when the page has none), the text of `<main>` or `<body>`, and the
      elements of the body for the link-container script (`None` when that
      script failed). */
  datatype PageLoad =
    | LoadFailed
    | Loaded(title: Text, textContent: Text, elements: Option<seq<Element>>)

  /** One dispatch by the external scheduler: run the handler on the
      `pick`-th request handed to the crawler so far, with what the browser
      produced and the clock reading. A `pick` past the last request means
      the scheduler has run out of work. */
  datatype Visit = Visit(pick: nat, load: PageLoad, now: Timestamp)

  function CrawledUrls(items: seq<CrawledItem>): (urls: seq<string>)
    ensures |urls| == |items|
    ensures forall i :: 0 <= i < |items| ==> urls[i] == items[i].url
  {
    seq(|items|, i requires 0 <= i < |items| => items[i].url)
  }

  function ProcessedUrls(items: seq<ProcessedItem>): (urls: seq<string>)
    ensures |urls| == |items|
    ensures forall i :: 0 <= i < |items| ==> urls[i] == items[i].url
  {
    seq(|items|, i requires 0 <= i < |items| => items[i].url)
  }

  /** The links of `urls` not processed yet, in order. */
  function Unvisited(urls: seq<string>, processedUrls: set<string>): seq<string> {
    if urls == [] then []
    else
      var last := urls[|urls| - 1];
      Unvisited(urls[..|urls| - 1], processedUrls) + (if last in processedUrls then [] else [last])
  }

  /** Queued are exactly the links not processed yet. */
  lemma {:induction false} UnvisitedMembers(urls: seq<string>, processedUrls: set<string>)
    ensures forall u :: u in Unvisited(urls, processedUrls) <==> u in urls && u !in processedUrls
  {
    if urls != [] {
      var init := urls[..|urls| - 1];
      UnvisitedMembers(init, processedUrls);
      assert urls == init + [urls[|urls| - 1]];
    }
  }

  /** One more link extends the unvisited links by that link, if new. */
  lemma UnvisitedSnoc(urls: seq<string>, i: nat, processedUrls: set<string>)
    requires i < |urls|
    ensures Unvisited(urls[..i + 1], processedUrls)
         == Unvisited(urls[..i], processedUrls) + (if urls[i] in processedUrls then [] else [urls[i]])
  {
    assert urls[..i + 1][..i] == urls[..i];
  }

  /** A list of links none of which is processed passes whole. */
  lemma {:induction false} UnvisitedOfFresh(urls: seq<string>, processedUrls: set<string>)
    requires forall u :: u in urls ==> u !in processedUrls
    ensures Unvisited(urls, processedUrls) == urls
  {
    if urls != [] {
      var init, last := urls[..|urls| - 1], urls[|urls| - 1];
      assert urls == init + [last];
      forall u | u in init
        ensures u !in processedUrls
      {
        assert u in urls;
      }
      UnvisitedOfFresh(init, processedUrls);
    }
  }

  /** Appending a record with a new URL keeps the URLs distinct and adds
      the URL to their set. */
  lemma CrawledUrlsSnoc(items: seq<CrawledItem>, item: CrawledItem)
    requires Distinct(CrawledUrls(items)) && item.url !in Elems(CrawledUrls(items))
    ensures CrawledUrls(items + [item]) == CrawledUrls(items) + [item.url]
    ensures Distinct(CrawledUrls(items + [item]))
    ensures Elems(CrawledUrls(items + [item])) == Elems(CrawledUrls(items)) + {item.url}
  {
    assert CrawledUrls(items + [item]) == CrawledUrls(items) + [item.url];
  }
}
