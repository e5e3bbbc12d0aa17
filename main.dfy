/** main.py: cleaning the crawled records into the output dictionary, and
    removing one URL from it by index. The dictionary is an object whose
    `content` entry is reassigned and whose `links` entry is a list object
    that is popped in place. */
module Main {
  import opened Common
  import opened Models
  import opened TextProcessor
  import TextExtractor

  /** The dictionary `{"content": ..., "links": ..., "initial_urls": ...}`. */
  class Output {
    var content: seq<ProcessedItem>
    var links: ListRef<string>
    var initialUrls: seq<string>

    constructor (content: seq<ProcessedItem>, links: ListRef<string>, initialUrls: seq<string>)
      ensures this.content == content && this.links == links && this.initialUrls == initialUrls
    {
      this.content := content;
      this.links := links;
      this.initialUrls := initialUrls;
    }

    /** `links` lists the URLs of `content`, one for one. */
    ghost predicate InSync()
      reads this, links
    {
      links.elems == ProcessedUrls(content)
    }
  }

  /** `run_crawler_and_process` once `crawl_website` has returned the
      crawled records and the initial URLs: the records are cleaned and
      their URLs listed beside them. */
  method RunCrawlerAndProcess(crawledData: seq<CrawledItem>, initialUrls: seq<string>) returns (data: Output)
    ensures fresh(data) && fresh(data.links)
    ensures |data.content| == |crawledData|
    ensures forall i :: 0 <= i < |crawledData| ==> data.content[i] == ProcessCrawledItem(crawledData[i])
    ensures data.links.elems == CrawledUrls(crawledData)
    ensures data.InSync()
    ensures data.initialUrls == initialUrls
  {
    var processedData := TextExtractor.ProcessCrawledData(crawledData);
    var links := new ListRef(ProcessedUrls(processedData));
    data := new Output(processedData, links, initialUrls);
  }

  /** `[item for item in content if item['url'] != url]`. */
  function WithoutUrl(content: seq<ProcessedItem>, url: string): (r: seq<ProcessedItem>)
    ensures |r| <= |content|
    ensures forall item :: item in r <==> item in content && item.url != url
  {
    if content == [] then []
    else
      assert content == [content[0]] + content[1..];
      (if content[0].url != url then [content[0]] else []) + WithoutUrl(content[1..], url)
  }

  /** The filter distributes over concatenation: the items that stay keep
      their order. */
  lemma {:induction false} WithoutUrlAppend(a: seq<ProcessedItem>, b: seq<ProcessedItem>, url: string)
    ensures WithoutUrl(a + b, url) == WithoutUrl(a, url) + WithoutUrl(b, url)
  {
    if a == [] {
      assert a + b == b;
    } else {
      var ab := a + b;
      assert ab[0] == a[0] && ab[1..] == a[1..] + b;
      WithoutUrlAppend(a[1..], b, url);
      var head := if a[0].url != url then [a[0]] else [];
      assert WithoutUrl(ab, url) == head + WithoutUrl(a[1..] + b, url);
      assert WithoutUrl(a, url) == head + WithoutUrl(a[1..], url);
      AppendAssoc(head, WithoutUrl(a[1..], url), WithoutUrl(b, url));
    }
  }

  /** Content without the URL passes the filter whole. */
  lemma {:induction false} WithoutAbsentUrl(content: seq<ProcessedItem>, url: string)
    requires forall k :: 0 <= k < |content| ==> content[k].url != url
    ensures WithoutUrl(content, url) == content
  {
    if content != [] {
      WithoutAbsentUrl(content[1..], url);
      assert content == [content[0]] + content[1..];
    }
  }

  /** Distinct URLs stay distinct without the first item, and none of the
      others repeats the first one's. */
  lemma DistinctUrlsTail(content: seq<ProcessedItem>)
    requires content != [] && Distinct(ProcessedUrls(content))
    ensures Distinct(ProcessedUrls(content[1..]))
    ensures forall k :: 0 <= k < |content| - 1 ==> content[1..][k].url != content[0].url
  {
    var urls := ProcessedUrls(content);
    assert ProcessedUrls(content[1..]) == urls[1..];
    forall k | 0 <= k < |content| - 1
      ensures content[1..][k].url != content[0].url
    {
      assert urls[k + 1] != urls[0];
    }
  }

  /** When the URLs are distinct, filtering out the URL of the `i`-th item
      removes exactly that item. */
  lemma {:induction false} WithoutDistinctUrl(content: seq<ProcessedItem>, i: nat)
    requires i < |content| && Distinct(ProcessedUrls(content))
    ensures WithoutUrl(content, content[i].url) == RemoveAt(content, i)
  {
    var url := content[i].url;
    var rest := content[1..];
    DistinctUrlsTail(content);
    if i == 0 {
      WithoutAbsentUrl(rest, url);
      assert RemoveAt(content, 0) == rest;
    } else {
      assert rest[i - 1] == content[i];
      WithoutDistinctUrl(rest, i - 1);
      assert WithoutUrl(content, url) == [content[0]] + WithoutUrl(rest, url);
      RemoveAtCons(content, i);
    }
  }

  /** Removing an item and its URL at the same index keeps the two lists
      one for one. */
  lemma ProcessedUrlsRemoveAt(content: seq<ProcessedItem>, i: nat)
    requires i < |content|
    ensures ProcessedUrls(RemoveAt(content, i)) == RemoveAt(ProcessedUrls(content), i)
  {
  }

  /** `remove_url_and_update`: an index in range pops that URL from the
      `links` list object; if the removed URL is not empty, every item with
      that URL leaves `content`. Anything else leaves the dictionary
      unchanged. The same dictionary is returned. */
  method RemoveUrlAndUpdate(data: Output, indexToRemove: Option<int>) returns (result: Output)
    modifies data, data.links
    ensures result == data && data.links == old(data.links) && data.initialUrls == old(data.initialUrls)
    ensures indexToRemove.Some? && 0 <= indexToRemove.value < |old(data.links.elems)| ==>
      var removed := old(data.links.elems)[indexToRemove.value];
      && data.links.elems == RemoveAt(old(data.links.elems), indexToRemove.value)
      && data.content == (if removed != "" then WithoutUrl(old(data.content), removed) else old(data.content))
    ensures !(indexToRemove.Some? && 0 <= indexToRemove.value < |old(data.links.elems)|) ==>
      data.links.elems == old(data.links.elems) && data.content == old(data.content)
    ensures indexToRemove.Some? && 0 <= indexToRemove.value < |old(data.links.elems)|
            && old(data.InSync()) && Distinct(old(data.links.elems)) && old(data.links.elems)[indexToRemove.value] != "" ==>
      data.InSync()
  {
    if indexToRemove.Some? && 0 <= indexToRemove.value < |data.links.elems| {
      if data.InSync() && Distinct(data.links.elems) {
        RemovalKeepsLinksInSync(data.content, indexToRemove.value);
      }
      var updatedLinks, removedUrl := TextExtractor.RemoveUrlByIndex(data.links, indexToRemove.value);
      if removedUrl.Some? && removedUrl.value != "" {
        data.content := WithoutUrl(data.content, removedUrl.value);
        data.links := updatedLinks;
      }
    }
    return data;
  }

  /** When the URLs are distinct, popping the `i`-th link and filtering
      its URL out of `content` keeps the two lists one for one. */
  lemma RemovalKeepsLinksInSync(content: seq<ProcessedItem>, i: nat)
    requires i < |content| && Distinct(ProcessedUrls(content))
    ensures var removed := ProcessedUrls(content)[i];
      RemoveAt(ProcessedUrls(content), i) == ProcessedUrls(WithoutUrl(content, removed))
  {
    WithoutDistinctUrl(content, i);
    ProcessedUrlsRemoveAt(content, i);
  }

  /** With a repeated URL, one link goes and every item with that URL goes:
      the lists no longer match. */
  lemma DuplicateUrlDesyncs(a: ProcessedItem, b: ProcessedItem)
    requires a.url == b.url && a.url != ""
    ensures var content := [a, b];
      |RemoveAt(ProcessedUrls(content), 0)| == 1 && WithoutUrl(content, a.url) == []
  {
    var content := [a, b];
    assert content[1..] == [b] && [b][1..] == [];
  }
}
