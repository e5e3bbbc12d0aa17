/** text_extractor.py: the loop that cleans every crawled record and the
    in-place removal of a list element by index. Its `clean_text` is the
    same code as text_processor.py's and is modelled once, in
    TextProcessor. */
module TextExtractor {
  import opened Common
  import opened Models
  import opened TextProcessor

  /** `process_crawled_data`: one cleaned record per crawled record, in
      order, with the URL and the capture time copied. */
  method ProcessCrawledData(crawledData: seq<CrawledItem>) returns (processedData: seq<ProcessedItem>)
    ensures |processedData| == |crawledData|
    ensures forall i :: 0 <= i < |crawledData| ==>
      processedData[i].url == crawledData[i].url
      && processedData[i].dateCrawled == crawledData[i].dateCrawled
      && processedData[i].title == CleanText(crawledData[i].title)
      && processedData[i].textContent == CleanText(crawledData[i].textContent)
  {
    processedData := [];
    for k := 0 to |crawledData|
      invariant |processedData| == k
      invariant forall i :: 0 <= i < k ==> processedData[i] == ProcessCrawledItem(crawledData[i])
    {
      var item := crawledData[k];
      var cleanedText := CleanText(item.textContent);
      processedData := processedData + [ProcessedItem(item.url, CleanText(item.title), cleanedText, item.dateCrawled)];
    }
  }

  /** `remove_url_by_index`: pops `data[index]` in place when the index is
      in range, and hands back the same list with what was removed. */
  method RemoveUrlByIndex<T>(data: ListRef<T>, index: int) returns (same: ListRef<T>, removed: Option<T>)
    modifies data
    ensures same == data
    ensures 0 <= index < |old(data.elems)| ==>
      removed == Some(old(data.elems)[index]) && data.elems == RemoveAt(old(data.elems), index)
    ensures !(0 <= index < |old(data.elems)|) ==> removed == None && data.elems == old(data.elems)
  {
    if 0 <= index < |data.elems| {
      var removedItem := data.Pop(index);
      return data, Some(removedItem);
    } else {
      return data, None;
    }
  }
}
