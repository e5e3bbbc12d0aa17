# A model of the rules of a small website crawler

The crawler takes a host URL and a budget of pages (`max_links`). It does one of two things:

- It crawls from the host, following links found on each page.
- It crawls the URLs listed in the host's `sitemap.xml`.

For every page it records the URL, the title, the visible text and the capture time. It then cleans literal `\n` and `\uXXXX` escapes out of the text, and returns:

- the records;
- their URLs;
- the initial URLs it found.

The browser, the HTTP client, the HTML and XML parsers and the crawl scheduler are external. Around them sits a set of small, sequential rules, and those rules are what this project models:

- which URLs count as valid;
- which links are in scope;
- which three link containers of a page are followed;
- what the per-page request handler records and queues;
- how the result is assembled and cleaned;
- how a list of links is edited afterwards;
- when the sitemap is used.

There are two crawlers:

- `aio.py` is self-contained. Its link filter is domain based, it deduplicates, and it cleans its output.
- `web_crawler.py` builds on `base_crawler.py`. Its link filter is a string prefix test, it keeps duplicates, and its output is raw.

Both are modelled, each in its own module.

Modules (one per source file, plus shared building blocks):

- `Common`:
  - `Option` and `Result`;
  - code-point text;
  - Python slicing `s[:n]`;
  - `list.pop`;
  - `str.replace(p, '')`;
  - a Python list object that is changed in place (`ListRef`);
  - `list(set)`.
- `Urls`: a simplified `urlsplit`, `urlunsplit` and `urljoin`.
  - Components follow section 3 of RFC 3986.
  - Reference resolution follows section 5.2 of RFC 3986 as CPython's `urljoin` does it, for http and https bases. The base's directories and the reference's segments are put together, empty inner segments are dropped, and `.` and `..` segments are resolved.
- `LinkContainers`: the in-page script of `find_top_link_containers`. Both crawlers run the same script. The elements of the page body are an input.
- `Models`: the records. A `PageLoad` is what the browser made of one page. A `Visit` is one dispatch by the scheduler.
- `TextProcessor`: `clean_text` and `process_crawled_item`. The same code appears in three files, so it is defined once.
- `TextExtractor`: the cleaning loop, and removal by index.
- `Utils`: removal by index, and the decision part of `fetch_sitemap`.
- `BaseCrawler`: the URL test without a host requirement.
- `Aio`: the URL test, the scope filter and the link extractor of aio.py.
  - Class `AioCrawl` holds the handler state: `crawled_data`, `processed_urls`, `unique_initial_urls`, `is_first_page` and the requests queued so far.
  - `Crawl` and `RunCrawlerAndProcess` assemble the result.
- `WebCrawler`: the same for web_crawler.py. Class `WebCrawl` holds its handler state, including the replace-once `initial_urls`.
- `Main`: `run_crawler_and_process` after the crawl, and `remove_url_and_update`. The output dictionary is class `Output`: its `content` entry is reassigned, and its `links` entry is a list object that is popped in place.

How the crawl is driven:

- The scheduler is a sequence of `Visit(pick, load, now)`.
- Each visit runs the handler on the `pick`-th request handed to the crawler so far: a seed, or a link queued by `add_requests`.
- The browser's outcome and the clock reading come with the visit.
- A `pick` past the last request means the queue is drained and the run ends.
- Handler calls run one at a time.

## Model

| member | source | states |
|---|---|---|
| Common.PyPrefix | aio.py:169 | `s[:n]` for every integer `n`: a prefix of `s`. Its length is `min(n, len(s))` for `n >= 0`, and `len(s) + n`, but not below 0, for negative `n`. |
| Common.RemoveAt | text_extractor.py:25 | What `pop(i)` leaves behind: one element fewer. The elements before `i` stay in place, and those after `i` move down by one. |
| Common.PopThenInsertRestores | text_extractor.py:25 | Inserting the popped element back where it was restores the list. Exactly one occurrence of that element leaves the list's multiset. |
| Common.ListRef.Pop | text_extractor.py:25 | `list.pop(i)` returns the old `i`-th element, and the list object then holds its old contents with that element removed. |
| Common.SetToSeq | aio.py:214 | `list(set(...))`: each member of the set exactly once, and nothing else. |
| Common.RemoveAll | aio.py:201 | `str.replace(p, '')` never lengthens its text. |
| Common.RemoveAllAbsent | aio.py:201 | `replace('www.', '')` leaves a string unchanged when the pattern's first character does not occur in it. |
| Urls.WebSchemeIffLowerPrefix | aio.py:95-96 | The parsed scheme is `http` or `https` exactly when the URL begins with `http:` or `https:`, in any mix of letter cases. |
| Urls.NetlocMakesPathAbsolute | aio.py:95-96 | When a URL has a network location, its path is empty or starts with `/`. |
| Urls.SplitOfWebUrl | aio.py:95 | `urlparse` of `scheme://host/path` gives that scheme, the host part up to the first `/`, the path, and no query or fragment. |
| Urls.SplitOfRelativePath | aio.py:206 | A reference with no colon, `?` or `#`, and no leading `//`, parses as a bare path. |
| Urls.Urlsplit | aio.py:95 | `urlsplit`: the text before the first colon, in lower case, when it is a scheme name, then `//` and the network location up to the first `/`, `?` or `#`, then the path, `?query` and `#fragment`. |
| Urls.Unsplit | aio.py:206 | `urlunsplit`: the scheme and `:`; `//` and the network location when there is one, or when the scheme is http or https and the path does not start with `//` (a path that is not rooted then gets a `/`); the path, then `?query` and `#fragment` when they are not empty. |
| Urls.RootedPath | aio.py:206 | The path after a host starts with `/` or is empty. A rooted or empty path is kept; any other path gets exactly one `/` in front. |
| Urls.UnsplitOfWebUrl | aio.py:206 | A scheme, a host and a path with no query or fragment reassemble to `scheme://host` followed by the path, with a `/` put in front of a path that is not rooted. |
| Urls.Join | aio.py:206 | `urljoin`: an empty base or reference gives the other. A reference with another scheme, or any non-hierarchical scheme, is returned as it is. A reference with a host replaces the base's host and path. An empty reference path keeps the base's path, and its query unless the reference has one. Otherwise the two paths are merged. |
| Urls.SplitOn | aio.py:206 | `split('/')`: at least one piece, and no piece holds the separator. |
| Urls.JoinOnSplitOn | aio.py:206 | `'/'.join(s.split('/')) == s` for every text. |
| Urls.SplitOnJoinOn | aio.py:206 | Splitting the join of one or more pieces that hold no separator gives back those pieces. |
| Urls.NonEmptySegments | aio.py:206 | The filter of empty segments: never more segments, none of them empty, and none gains a `/`. |
| Urls.FilterMiddle | aio.py:206 | The first and the last segment are kept. Every inner segment left is non-empty. |
| Urls.ResolveDots | aio.py:206 | The `.`/`..` loop: never more segments, and no `.` or `..` is left. |
| Urls.Resolved | aio.py:206 | No `.` or `..` is left after resolution, and no segment gains a `/`. |
| Urls.ResolvePath | aio.py:206 | The merged path is never empty: an empty join gives `/`. |
| Urls.BaseDirectories | aio.py:206 | The directories of the base path are pieces of its `split('/')`, none of them holding a `/`. |
| Urls.Segments | aio.py:206 | The segments to resolve hold no `/`. |
| Urls.MergedPathHasNoDotSegment | aio.py:206 | No `/`-separated segment of a merged path is `.` or `..`. |
| Urls.RelativeMergeHasNoDoubleSlash | aio.py:206 | A reference path that is not rooted, merged onto any base path, never gives two `/` side by side. |
| Urls.MergeOfPlainPaths | aio.py:206 | A relative path of plain segments replaces the last segment of a rooted base path with plain directories; a base path ending in `/` keeps all of its segments. |
| Urls.MergeDropsEmptyBaseSegment | utils.py:16 | An empty directory of the base is dropped: a segment against `/dir//last` gives `/dir/segment`. |
| Urls.MergeRemovesDotDot | aio.py:206 | `..` removes the directory before it: `../d` against `/a/b/c` gives `/a/d`. |
| Urls.MergeAboveRoot | aio.py:206 | `..` above the root removes the root's empty segment: `../seg` against `/` gives `seg`, which `Unsplit` roots again after a host. |
| Urls.MergeOntoEmptyPath | utils.py:16 | A plain segment against an empty base path is placed at the root. |
| Urls.JoinOfRelativePath | aio.py:206 | `urljoin` of a bare relative path onto an http(s) URL keeps the base's scheme and host. Its path is the merge of the base path and the reference, with `/` in front when the merge is not rooted. |
| Urls.JoinAllAt | aio.py:205-206 | Resolving a list of links resolves each one against the base, position for position. |
| LinkContainers.LinkBearing | aio.py:184-193 | Every element with at least one anchor is described, and every description is that of such an element. Each description has a count of at least 1, equal to the length of its link list. |
| LinkContainers.LinkBearingAppend | aio.py:185-186 | The filter keeps document order: it distributes over concatenation. |
| LinkContainers.LinkBearingOfOne | aio.py:186-193 | One element gives its description when it holds an anchor, and nothing otherwise. |
| LinkContainers.Insert | aio.py:194 | One insertion step of the sort: one element more, the multiset grows by the inserted container. |
| LinkContainers.SortByLinkCount | aio.py:194 | The sort is a permutation of its input, in non-increasing link count. |
| LinkContainers.SortKeepsTies | aio.py:194 | The sort is stable: containers with the same count keep their relative order. |
| LinkContainers.TopLinkContainers | aio.py:182-197 | `min(3, number of anchor-bearing elements)` containers, in non-increasing count order. Each has a link list and at least one link. Together they are a sub-multiset of the anchor-bearing elements. |
| LinkContainers.TopKeepsDensest | aio.py:186-195 | No element that was left out has more anchors than a kept container. |
| LinkContainers.TopKeepsDocumentOrderOnTies | web_crawler.py:137-138 | Among containers with the same count, the kept ones are the first in document order. |
| LinkContainers.LinkBearingOfDense | web_crawler.py:129-136 | When every element holds an anchor, each element is described, in document order. |
| LinkContainers.SortKeepsDescendingInput | web_crawler.py:137 | The sort leaves a list that is already in descending order unchanged. |
| LinkContainers.TopOfDescendingInput | web_crawler.py:137-138 | When the anchor-bearing elements already come in descending order, the top three are the first three. |
| LinkContainers.DensestThreeOfFour | web_crawler.py:128-138 | With four elements holding 15, 10, 5 and 2 anchors, the first three are kept in that order and the one with 2 is dropped. |
| Models.CrawledUrls | web_crawler.py:107 | One URL per record, in order: `links[i]` is the URL of the `i`-th record. |
| Models.ProcessedUrls | aio.py:173 | One URL per cleaned record, in order: `links[i] == content[i].url`. |
| Models.UnvisitedMembers | aio.py:153-157 | The links that are queued are exactly the page links that are not yet processed. |
| Models.UnvisitedOfFresh | aio.py:156 | A page list none of whose links is processed is queued whole, in order. |
| Models.CrawledUrlsSnoc | aio.py:134-140 | Appending a record with a new URL keeps the URLs distinct and adds that URL to their set. |
| TextProcessor.ReplaceNewlineEscapes | text_processor.py:5 | The `\n` pass never lengthens the text. |
| TextProcessor.EscapeValue | text_processor.py:6 | Four hex digits name a code point below U+10000. |
| TextProcessor.DecodeUnicodeEscapes | text_processor.py:6 | The `\uXXXX` pass never lengthens the text. |
| TextProcessor.CleanText | text_processor.py:4-6 | `clean_text` never returns a longer string than it was given. |
| TextProcessor.NoBackslashUnchanged | text_processor.py:4-6 | A text without a backslash comes out of `clean_text` unchanged. |
| TextProcessor.CleanTextInvertsEscape | text_processor.py:4-6 | `clean_text` undoes, on every text, an escaper that writes a newline as `\n`, and a backslash or any code point from U+0080 to U+FFFF as `\uXXXX`. |
| TextProcessor.ProcessCrawledItem | text_processor.py:8-14 | The URL and capture time are copied, and the title and text are cleaned. |
| TextProcessor.ProcessCrawledItemInvertsEscape | text_processor.py:8-14 | Cleaning a record whose title and text were escaped gives back the original title and text, with the URL and capture time kept. |
| TextProcessor.ProcessCrawledItemKeepsPlainItem | text_processor.py:8-14 | A record with no backslash in its title or text keeps every field. |
| TextProcessor.CleanTextDecodesEscapeExample | text_extractor.py:4-5 | `\u0041` becomes `A`. |
| TextProcessor.CleanTextKeepsShortEscapeExample | text_extractor.py:4-5 | `\u12`, with too few hex digits, is left alone. |
| TextProcessor.CleanTextDecodesNewlineExample | text_extractor.py:4-5 | A `\n` inside a text becomes a newline. |
| TextProcessor.CleanTextDecodesOnce | text_extractor.py:4-5 | The newline pass runs first and decoded output is not rescanned, so `\u005cn` becomes a backslash followed by `n`. |
| TextProcessor.CleanTextTwiceDecodesNewline | text_extractor.py:4-5 | Only a second cleaning turns the `\n` produced from `\u005cn` into a newline. |
| TextExtractor.ProcessCrawledData | text_extractor.py:8-21 | One cleaned record per crawled record, in order. The URL and capture time are copied, and the title and text are cleaned. |
| TextExtractor.RemoveUrlByIndex | text_extractor.py:23-29 | In range: pops exactly `data[index]` in place, keeps the rest in order, and returns it. Out of range: the list is unchanged and `None` is returned. The same list object comes back either way. |
| Utils.RemoveUrlByIndex | utils.py:7-13 | Same as `TextExtractor.RemoveUrlByIndex`, for utils.py's copy. |
| Utils.NonEmptyTexts | utils.py:37-40 | Never more URLs than `loc` elements. |
| Utils.NonEmptyTextsMembers | utils.py:37-40 | Kept are exactly the non-empty texts among the `loc` elements. |
| Utils.NonEmptyTextsAppend | utils.py:37-40 | The `loc` filter keeps document order: it distributes over concatenation. |
| Utils.NonEmptyTextsSkipsEmpty | utils.py:39 | A `loc` without text, or with empty text, contributes nothing. |
| Utils.FetchSitemap | utils.py:15-52 | Raises exactly when a 200 response's body does not decode. Every URL returned is non-empty. A non-empty list comes only from a parsed 200 response, and is then exactly its non-empty `loc` texts. |
| Utils.FetchSitemapFallsBackOnHttpError | utils.py:22-28 | Any status other than 200 gives `[]`, whatever the body. |
| Utils.FetchSitemapFallsBackOnParseError | utils.py:49-52 | A body that is not well-formed XML gives `[]` instead of raising. |
| Utils.FetchSitemapKeepsLocOrder | utils.py:37-47 | A parsed sitemap gives exactly its non-empty `loc` texts, in document order; `[]` when there are none. |
| Utils.SitemapUrl | utils.py:16 | `urljoin(host_url, 'sitemap.xml')`. |
| Utils.SitemapUrlOfWebHost | utils.py:16 | On an http(s) host URL, the sitemap keeps the scheme and host. Its path is the merge of the host URL's path and `sitemap.xml`, rooted. |
| Utils.SitemapOfBareHost | utils.py:16 | A host URL with no path has its sitemap at `scheme://host/sitemap.xml`. |
| Utils.SitemapBesideLastSegment | utils.py:16 | Below a rooted path with plain directories, `sitemap.xml` takes the place of the last segment; a path ending in `/` gets it in that directory. |
| BaseCrawler.IsValidUrl | base_crawler.py:12-14 | An http or https scheme (any case), and a path that does not start with `tel:`. |
| BaseCrawler.AcceptsWebUrl | base_crawler.py:12-14 | Every http or https URL with a host part and an empty or rooted path is accepted. |
| BaseCrawler.RootedIsNotTel | base_crawler.py:14 | An empty or rooted path never starts with `tel:`. |
| BaseCrawler.IsValidUrlIff | base_crawler.py:12-14 | Accepted exactly when the URL begins with `http:` or `https:` (in any case) and its path does not start with `tel:`. |
| BaseCrawler.RejectsTelLinks | base_crawler.py:14 | Every `tel:` URL, `tel:12345` among them, is rejected, by its scheme. |
| BaseCrawler.AcceptsUrlWithoutHost | base_crawler.py:13-14 | No host is required: `http:foo` is accepted although its network location is empty. |
| Aio.IsValidUrl | aio.py:94-96 | An http or https scheme, a non-empty network location, and a path that does not start with `tel:`. |
| Aio.Domain | aio.py:201 | The network location with every `www.` removed. |
| Aio.DomainInScope | aio.py:210 | The same domain as the host's, or one that ends with `.` and the host's domain. |
| Aio.InScope | aio.py:207-210 | A URL is in scope when its domain is. |
| Aio.Accepts | aio.py:210-211 | In scope, not processed, and valid. |
| Aio.AcceptedOf | aio.py:203-212 | The resolved links that are accepted, in order. |
| Aio.IsValidUrlIsBaseWithHost | aio.py:94-96 | aio.py's URL test is base_crawler.py's test plus a non-empty network location. |
| Aio.TelClauseIsRedundant | aio.py:96 | Once a host is required, the `tel:` clause never rejects anything: validity is an http(s) scheme plus a host. |
| Aio.RejectsTelLinks | aio.py:94-100 | `tel:12345` and every other `tel:` URL fails the test, so `crawl` raises on it as a host. |
| Aio.HostRequiredUnlikeBase | aio.py:96 | `http:foo` passes base_crawler.py's test and fails aio.py's. |
| Aio.DomainOfWebUrl | aio.py:201-208 | The domain of an http(s) URL with a host part and an empty or rooted path is that host part with every `www.` removed. |
| Aio.RemoveLeadingWww | aio.py:201 | A leading `www.` is removed, and the rest of the host part is then scanned on its own. |
| Aio.WwwHostSameDomain | aio.py:201-208 | For every host name, an http(s) URL on `www.name` and one on `name` have the same domain. |
| Aio.DomainOfWwwHost | aio.py:201 | For an http(s) URL with an empty or rooted path, the host part `www.name` and the host part `name` both have the domain `name` (for a name without the letter `w`, so that no other `www.` can arise). |
| Aio.WwwHostSharesScope | aio.py:201-210 | For every host name free of `/`, `?` and `#`: a link on `www.name` is in scope for a crawl of `name`, and a link on `name` is in scope for a crawl of `www.name`. |
| Aio.SubdomainInScope | aio.py:210 | Every subdomain of the host's domain is in scope. |
| Aio.LookalikeOutOfScope | aio.py:210 | A domain that merely ends with the host's domain, with no dot before it (`notexample.com`), is out of scope. |
| Aio.RemoveAllSkipsPlainPrefix | aio.py:201 | `replace` leaves alone a prefix that holds no first character of the pattern. |
| Aio.WwwAnywhereIsRemoved | aio.py:201 | Every `www.` is stripped wherever it stands, so `example.www.com` has the domain `example.com`. |
| Aio.AcceptedOfMembers | aio.py:203-212 | The loop keeps exactly the resolved links that are in scope, not processed, and valid. |
| Aio.ExtractValidUrls | aio.py:199-214 | No duplicates. The set of URLs is exactly the set of resolved links, from containers that have a `links` list, that are in scope, not processed, and valid. |
| Aio.AppendAccepted | aio.py:205-212 | The inner loop over one container's links appends, in order, exactly the resolved links that are in scope, not processed, and valid. |
| Aio.AcceptedOfAppend | aio.py:203-212 | The in-scope filter distributes over concatenation, so the URLs found keep container-then-link order. |
| Aio.ProcessAll | aio.py:169 | One cleaned record per record, position for position. |
| Aio.HostIsAdmissible | aio.py:165 | A valid host URL is a URL the crawl may visit: valid and in its own scope. |
| Aio.PageLinks | aio.py:146-147 | A page's links have no duplicates. They are exactly the accepted resolved links of its top three containers, and each is unprocessed, valid and in scope. |
| Aio.AioCrawl.constructor | aio.py:102-105 | Nothing crawled or processed yet. `unique_initial_urls` is `set(sitemap_urls or [])`, and `is_first_page` is `not use_sitemap`. The state invariant holds. |
| Aio.AioCrawl.AddRequests | aio.py:153-157 | Under budget, the unprocessed page links are queued in order. A full budget queues nothing. Nothing else changes. |
| Aio.AioCrawl.Record | aio.py:134-140 | Appends the record and adds its URL to `processed_urls`, keeping the invariant: within budget, URLs distinct, `processed_urls` equal to their set. |
| Aio.AioCrawl.FollowLinks | aio.py:145-157 | The old queue is kept as a prefix, and the new requests are exactly the page's links, once each. The first discovering page adds them to `unique_initial_urls`; `is_first_page` then stays false. |
| Aio.AioCrawl.HandleRequest | aio.py:114-159 | A full budget, a processed URL or a failed load changes nothing. A loaded page is appended with its capture time and marked processed. Links are queued only outside sitemap mode, only while under budget, and only when unprocessed. The invariant holds after every call. |
| Aio.Run | aio.py:161-167 | The handler runs sequentially on the scheduler's picks. The invariant is kept, and sitemap mode neither queues nor adds initial URLs. |
| Aio.Finish | aio.py:169-175 | `content` is the records cleaned in order, and there are at most `max_links` of them. `links[i] == content[i].url` with no duplicates, each a requested URL. `unique_initial_urls` is the set, listed once each. |
| Aio.Crawl | aio.py:98-175 | Raises exactly on an invalid host. Otherwise the result satisfies all of the following: the content is the cleaned records, at most `max_links` of them; the links are distinct, one per record; every initial URL is listed once, and every given sitemap URL is among them. Outside sitemap mode, every link and every discovered initial URL is valid and in scope. In sitemap mode, the links come from `sitemap_urls[:max_links]` and the initial URLs are exactly the sitemap's. |
| Aio.ChooseMode | aio.py:218-219 | Sitemap mode exactly when the fetched list is not empty. The list is fetched only when asked for, and a raising fetch fails the call. |
| Aio.RunCrawlerAndProcess | aio.py:217-228 | Fails exactly on an undecodable sitemap that was asked for, or on an invalid host. With no usable sitemap, every link and initial URL is in scope. With a sitemap, the links come from its first `desired_links` URLs and the initial URLs are exactly the sitemap's. |
| WebCrawler.KeptLinksMembers | web_crawler.py:154-160 | The filter keeps exactly the resolved links that start with `host_url`, are not processed, and are valid. |
| WebCrawler.KeptLinksAppend | web_crawler.py:155-159 | The filter distributes over concatenation, so it keeps container-then-link order. |
| WebCrawler.DuplicatesAreKept | web_crawler.py:158-159 | An accepted link that repeats is kept each time. |
| WebCrawler.Accepts | web_crawler.py:158 | Starts with the host URL, is not processed, and is valid. |
| WebCrawler.KeptLinks | web_crawler.py:155-159 | The resolved links that are accepted, in order, duplicates kept. |
| WebCrawler.AcceptsOtherHostWithSamePrefix | web_crawler.py:158 | The host test is a string prefix: for every http(s) host URL `scheme://host`, every unprocessed link `scheme://host` + suffix + path, whose longer host part is free of `/`, `?` and `#`, is accepted. `http://example.com` accepts `http://example.community/x`. |
| WebCrawler.NetlocsDiffer | web_crawler.py:158 | The links accepted that way are on another network location than the host URL. |
| WebCrawler.PageLinks | web_crawler.py:80-82 | The accepted resolved links of a page's top three containers, in order. |
| WebCrawler.ExtractValidUrls | web_crawler.py:142-160 | Raises (`KeyError`) exactly when some container has no `links`. Otherwise it returns the accepted resolved links of every container, in order, with duplicates. |
| WebCrawler.AppendAccepted | web_crawler.py:156-159 | The inner loop over one container's links appends, in order, exactly the resolved links that start with the host URL, are not processed, and are valid. |
| WebCrawler.Finish | web_crawler.py:105-109 | At most `max_links` records are kept, in crawl order. `links[i]` is the URL of `content[i]`, with no duplicates, each a requested URL. `initial_urls` is passed through. |
| WebCrawler.PageLinksAreFresh | web_crawler.py:80-82 | Every link a page yields is unprocessed, starts with the host URL, and passes the URL test. |
| WebCrawler.HostIsWithinHost | web_crawler.py:100 | A valid host URL is a URL the crawl may visit. |
| WebCrawler.WebCrawl.constructor | web_crawler.py:36-39 | Nothing crawled yet. `initial_urls` is `sitemap_urls` in sitemap mode and `[]` otherwise. `is_first_page` is `not use_sitemap`. |
| WebCrawler.WebCrawl.Record | web_crawler.py:68-74 | Appends the record and marks its URL processed, keeping the URLs distinct and `processed_urls` equal to their set. |
| WebCrawler.WebCrawl.AddRequests | web_crawler.py:88-92 | Under budget, the unprocessed page links are queued in order. A full budget queues nothing. |
| WebCrawler.WebCrawl.FollowLinks | web_crawler.py:79-92 | The page's links, in order with duplicates, are appended to the queue. The first discovering page's list replaces `initial_urls`, and `is_first_page` then stays false. |
| WebCrawler.WebCrawl.HandleRequest | web_crawler.py:48-94 | A full budget, a processed URL or a failed load changes nothing. A loaded page is recorded. Outside sitemap mode and under budget, its links are queued, and the first such page replaces `initial_urls` once. |
| WebCrawler.Run | web_crawler.py:96-102 | The handler runs sequentially on the scheduler's picks. The invariant is kept, and sitemap mode leaves the queue and `initial_urls` alone. |
| WebCrawler.Crawl | web_crawler.py:17-109 | Raises exactly when the host fails base_crawler.py's test. Otherwise it returns raw records, at most `max_links` of them, with `links[i]` the `i`-th record's URL and no duplicates. Outside sitemap mode, links and initial URLs start with the host URL. In sitemap mode, `initial_urls` is `sitemap_urls` and the links come from its first `max_links`. |
| Main.Output.constructor | main.py:20-24 | The dictionary holds the given content, links list and initial URLs. |
| Main.RunCrawlerAndProcess | main.py:7-24 | `content` is the crawled records cleaned in order, and `links` lists their URLs one for one (`links[i] == content[i].url`). |
| Main.WithoutUrl | main.py:33 | Exactly the items whose URL differs from the removed one, and never more items. |
| Main.WithoutUrlAppend | main.py:33 | The comprehension keeps the order of the items that stay. |
| Main.WithoutAbsentUrl | main.py:33 | Content that does not hold the URL passes the filter whole. |
| Main.WithoutDistinctUrl | main.py:28-33 | With distinct URLs, filtering out the URL of the `i`-th item removes exactly that item. |
| Main.ProcessedUrlsRemoveAt | main.py:17 | Removing an item and its URL at the same index keeps `links` one for one with `content`. |
| Main.RemoveUrlAndUpdate | main.py:26-35 | `None` or an out-of-range index changes nothing. In range, the `links` list object loses exactly that element, in place. A non-empty removed URL also drops every item with that URL from `content`; an empty one leaves `content` unfiltered. With distinct URLs and synchronised lists, they stay synchronised. |
| Main.RemovalKeepsLinksInSync | main.py:28-34 | With distinct URLs, popping the `i`-th link and filtering its URL out of `content` keeps the two lists one for one. |
| Main.DuplicateUrlDesyncs | main.py:28-34 | With a repeated URL, one link goes but every item with that URL goes, so the lists no longer match. |

## Left out

- The Playwright run loop, `ConcurrencySettings(desired_concurrency=50)` and `max_requests_per_crawl=max_links + 1`. These belong to the external scheduler. Handler calls are modelled one at a time, so the overshoot that concurrent handlers can cause between the budget test and the append is not modelled. Truncation to `max_links` is kept.
- Crawlee's deduplication of queued URLs. The scheduler may pick any request, repeats included, and the handler's own `processed_urls` test is what the model relies on.
- Exceptions from `add_requests` in the middle of the link loop. Queueing is taken to succeed.
- `page.content()`, the BeautifulSoup title and text extraction, and the scroll and wait before the container script. Each page's title, text and body elements are inputs (`PageLoad`). Any exception before the append is the `LoadFailed` outcome. A `<title>` element without a string gives a `None` title. In aio.py the validated `CrawledItem` (aio.py:21-25) rejects it inside the handler's `try`, so that page is `LoadFailed`. In web_crawler.py the record is a plain dataclass (models.py:5-10), so the page is appended with a `None` title (web_crawler.py:63-72), and its links are followed. The model's titles are strings, so `None` is not representable: such a web_crawler.py page is modelled as `Loaded` with some string title. A failure of the container script after the append is `elements == None`.
- The `selector` string of a link container. It is carried through but never read, so its construction from tag, id and class names is not modelled.
- The aiohttp GET and `ET.fromstring`. Their outcome is the input `SitemapResponse`: a client error, a status and a body that did or did not decode, then parsed or not parsed, with the `loc` texts.
- `fetch_sitemap` is documented as always falling back to `[]`. The code, however, lets `UnicodeDecodeError` from `response.text()` escape: it is neither an `aiohttp.ClientError` nor an `ET.ParseError`. The model follows the code, and that failure propagates out of `RunCrawlerAndProcess`.
- The full `urlsplit` and `urljoin`. Not modelled are:
  - `;params`;
  - stripping of whitespace and control characters;
  - IPv6 host checks;
  - ports beyond their text;
  - schemes other than http and https as bases.
- `datetime.now()`. The capture time is an input of each visit.
- Logging and `print`, `save_output`, `main()` and its timing.
- `crawl_website` of crawler.py is not part of this model. main.py's `run_crawler_and_process` is modelled from the pair of crawled records and initial URLs that it unpacks.
- Main.RunCrawlerAndProcess: starts after `crawl_website` has returned, so it states nothing about the crawl itself. As written, main.py:9 unpacks the result of `crawl_website` into two names, but crawler.py:5-7 returns a `CrawlerResult` dataclass (models.py:20-24), which cannot be unpacked, so the call raises `TypeError` before any processing. `process_crawled_data` (text_extractor.py:11,14-16) also subscripts its items as dictionaries, while the crawlers produce dataclass records. The model describes the evident intent: the records and initial URLs are passed on, and each record is cleaned.
- Aio.ExtractValidUrls: states the set of URLs and their distinctness, not their order, because `list(set(...))` leaves the order unspecified.
- Aio.Run: states the invariants every handler call keeps and that sitemap mode queues nothing. It does not say which requests get handled, since the order is the external scheduler's.
- WebCrawler.Run: the same as `Aio.Run`.
- Aio.Crawl: the crawled records are tied to the cleaned content and the invariants, not to a particular sequence of visits.
- WebCrawler.Crawl: the same as `Aio.Crawl`. The raw records are tied to the invariants, not to a particular sequence of visits.
- WebCrawler.WebCrawl.FollowLinks: the container script always yields a `links` list, so the `KeyError` path of `extract_valid_urls` cannot be reached from the handler. That path is stated only on `WebCrawler.ExtractValidUrls`.
- Aio.DomainOfWwwHost: the domain is stated to be the name itself only for names without the letter `w`. With a `w`, `replace('www.', '')` can also strip a `www.` inside the name. For every name, `Aio.WwwHostSameDomain` states that both URLs have the same domain.
