/** The in-page script of `find_top_link_containers` (aio.py and
    web_crawler.py run the same script): keep the body elements that have
    at least one anchor, describe each by its anchor count and the anchors'
    resolved `href`s, sort by descending count with `Array.prototype.sort`
    (stable since ECMA-262 2019) and keep the first three. */
module LinkContainers {
  import opened Common
  import opened Urls

  /** One element of the page body, in document order, with the resolved
      `href` of each anchor below it. */
  datatype Element = Element(selector: string, hrefs: seq<string>)

  /** What the script returns for one element. `links` is `None` when the
      record handed to the Python side has no `links` list. */
  datatype Container = Container(selector: string, linkCount: int, links: Option<seq<string>>)

  function Describe(e: Element): Container {
    Container(e.selector, |e.hrefs|, Some(e.hrefs))
  }

  /** `.filter(el => el.getElementsByTagName('a').length > 0).map(...)`. */
  function LinkBearing(els: seq<Element>): (cs: seq<Container>)
    ensures |cs| <= |els|
    ensures forall c :: c in cs ==> 1 <= c.linkCount && c.links.Some? && |c.links.value| == c.linkCount
    ensures forall e :: e in els && 0 < |e.hrefs| ==> Describe(e) in cs
    ensures forall c :: c in cs ==> exists e :: e in els && 0 < |e.hrefs| && c == Describe(e)
  {
    if els == [] then []
    else (if 0 < |els[0].hrefs| then [Describe(els[0])] else []) + LinkBearing(els[1..])
  }

  /** The containers keep document order: the filter distributes over
      concatenation, one element at a time. */
  lemma {:induction false} LinkBearingAppend(a: seq<Element>, b: seq<Element>)
    ensures LinkBearing(a + b) == LinkBearing(a) + LinkBearing(b)
  {
    if a == [] {
      assert a + b == b;
    } else {
      assert (a + b)[0] == a[0] && (a + b)[1..] == a[1..] + b;
      LinkBearingAppend(a[1..], b);
      var head := if 0 < |a[0].hrefs| then [Describe(a[0])] else [];
      AppendAssoc(head, LinkBearing(a[1..]), LinkBearing(b));
    }
  }

  /** One element gives its description when it has an anchor, nothing
      otherwise. */
  lemma LinkBearingOfOne(e: Element)
    ensures LinkBearing([e]) == if 0 < |e.hrefs| then [Describe(e)] else []
  {
    assert [e][1..] == [];
  }

  predicate Descending(cs: seq<Container>) {
    forall i, j :: 0 <= i < j < |cs| ==> cs[i].linkCount >= cs[j].linkCount
  }

  /** Puts `c` ahead of the first container that has no more links than
      `c`, which keeps a stable order when `c` came first in the input. */
  function Insert(c: Container, sorted: seq<Container>): (r: seq<Container>)
    ensures |r| == |sorted| + 1
    ensures multiset(r) == multiset(sorted) + multiset{c}
  {
    if sorted == [] || sorted[0].linkCount <= c.linkCount then [c] + sorted
    else
      assert sorted == [sorted[0]] + sorted[1..];
      [sorted[0]] + Insert(c, sorted[1..])
  }

  /** Inserting into a descending list keeps it descending. */
  lemma {:induction false} InsertKeepsDescending(c: Container, sorted: seq<Container>)
    requires Descending(sorted)
    ensures Descending(Insert(c, sorted))
  {
    if !(sorted == [] || sorted[0].linkCount <= c.linkCount) {
      var h, rest := sorted[0], sorted[1..];
      InsertKeepsDescending(c, rest);
      DescendingHeadBounds(sorted);
      InsertBoundedBy(c, rest, h.linkCount);
      DescendingCons(h, Insert(c, rest));
    }
  }

  /** The head of a descending list has at least as many links as any later container. */
  lemma DescendingHeadBounds(s: seq<Container>)
    requires Descending(s) && s != []
    ensures Descending(s[1..])
    ensures forall x :: x in s[1..] ==> x.linkCount <= s[0].linkCount
  {
  }

  /** A bound on every container carries over to the list with one inserted. */
  lemma InsertBoundedBy(c: Container, s: seq<Container>, bound: int)
    requires c.linkCount <= bound && forall x :: x in s ==> x.linkCount <= bound
    ensures forall x :: x in Insert(c, s) ==> x.linkCount <= bound
  {
    forall x | x in Insert(c, s)
      ensures x.linkCount <= bound
    {
      assert x in multiset(Insert(c, s));
    }
  }

  /** A container ahead of a descending list it bounds keeps it descending. */
  lemma DescendingCons(h: Container, s: seq<Container>)
    requires Descending(s) && forall x :: x in s ==> x.linkCount <= h.linkCount
    ensures Descending([h] + s)
  {
    var t := [h] + s;
    forall i, j | 0 <= i < j < |t|
      ensures t[i].linkCount >= t[j].linkCount
    {
      if i == 0 {
        assert t[j] == s[j - 1];
      } else {
        assert t[i] == s[i - 1] && t[j] == s[j - 1];
      }
    }
  }

  /** `.sort((a, b) => b.linkCount - a.linkCount)`. */
  function SortByLinkCount(cs: seq<Container>): (r: seq<Container>)
    ensures |r| == |cs|
    ensures multiset(r) == multiset(cs)
    ensures Descending(r)
  {
    if cs == [] then []
    else
      assert cs == [cs[0]] + cs[1..];
      var rest := SortByLinkCount(cs[1..]);
      InsertKeepsDescending(cs[0], rest);
      Insert(cs[0], rest)
  }

  /** `find_top_link_containers`: the whole pipeline, ending in `.slice(0, 3)`. */
  function TopLinkContainers(els: seq<Element>): (top: seq<Container>)
    ensures |top| == Min(3, |LinkBearing(els)|)
    ensures Descending(top)
    ensures forall c :: c in top ==> 1 <= c.linkCount && c.links.Some? && |c.links.value| == c.linkCount
    ensures multiset(top) <= multiset(LinkBearing(els))
  {
    var sorted := SortByLinkCount(LinkBearing(els));
    var top := sorted[..Min(3, |sorted|)];
    PrefixOfSorted(sorted, |top|);
    assert forall c :: c in top ==> c in multiset(LinkBearing(els));
    top
  }

  lemma PrefixOfSorted(s: seq<Container>, n: nat)
    requires n <= |s| && Descending(s)
    ensures Descending(s[..n])
    ensures multiset(s[..n]) <= multiset(s)
    ensures forall x :: x in s[..n] ==> x in multiset(s)
  {
    assert s == s[..n] + s[n..];
  }

  /** Every link of every container that has a `links` list, resolved
      against `base`, in container-then-link order. */
  function JoinedLinks(cs: seq<Container>, base: string): seq<string> {
    if cs == [] then []
    else
      var last := cs[|cs| - 1];
      JoinedLinks(cs[..|cs| - 1], base) + (if last.links.Some? then JoinAll(base, last.links.value) else [])
  }

  /** The containers of `cs` that have exactly `k` links, in order. */
  function WithCount(cs: seq<Container>, k: int): seq<Container> {
    if cs == [] then [] else (if cs[0].linkCount == k then [cs[0]] else []) + WithCount(cs[1..], k)
  }

  lemma {:induction false} WithCountAppend(a: seq<Container>, b: seq<Container>, k: int)
    ensures WithCount(a + b, k) == WithCount(a, k) + WithCount(b, k)
  {
    if a == [] {
      assert a + b == b;
    } else {
      var ab := a + b;
      assert ab[0] == a[0] && ab[1..] == a[1..] + b;
      WithCountAppend(a[1..], b, k);
      var head := if a[0].linkCount == k then [a[0]] else [];
      assert WithCount(ab, k) == head + WithCount(a[1..] + b, k);
      assert WithCount(a, k) == head + WithCount(a[1..], k);
      AppendAssoc(head, WithCount(a[1..], k), WithCount(b, k));
    }
  }

  lemma WithCountCons(x: Container, s: seq<Container>, k: int)
    ensures WithCount([x] + s, k) == (if x.linkCount == k then [x] else []) + WithCount(s, k)
  {
    assert ([x] + s)[0] == x && ([x] + s)[1..] == s;
  }

  lemma {:induction false} InsertKeepsTies(c: Container, sorted: seq<Container>, k: int)
    ensures WithCount(Insert(c, sorted), k) == WithCount([c] + sorted, k)
  {
    if !(sorted == [] || sorted[0].linkCount <= c.linkCount) {
      var s0, rest := sorted[0], sorted[1..];
      assert sorted == [s0] + rest;
      InsertKeepsTies(c, rest, k);
      WithCountCons(s0, Insert(c, rest), k);
      WithCountCons(c, rest, k);
      WithCountCons(c, sorted, k);
      WithCountCons(s0, rest, k);
    }
  }

  /** The sort is stable: containers with equal counts keep their order. */
  lemma {:induction false} SortKeepsTies(cs: seq<Container>, k: int)
    ensures WithCount(SortByLinkCount(cs), k) == WithCount(cs, k)
  {
    if cs != [] {
      InsertKeepsTies(cs[0], SortByLinkCount(cs[1..]), k);
      SortKeepsTies(cs[1..], k);
      WithCountCons(cs[0], SortByLinkCount(cs[1..]), k);
      WithCountCons(cs[0], cs[1..], k);
      assert cs == [cs[0]] + cs[1..];
    }
  }

  /** No element that was left out has more anchors than a kept container,
      whether it was left out for having no anchor or by the cut at three. */
  lemma TopKeepsDensest(els: seq<Element>, e: Element, c: Container)
    requires e in els && Describe(e) !in TopLinkContainers(els)
    requires c in TopLinkContainers(els)
    ensures |e.hrefs| <= c.linkCount
  {
    if 0 < |e.hrefs| {
      var bearing := LinkBearing(els);
      var sorted := SortByLinkCount(bearing);
      assert Describe(e) in multiset(bearing);
      assert Describe(e) in multiset(sorted);
      assert TopLinkContainers(els) == sorted[..Min(3, |sorted|)];
      DroppedFromPrefix(sorted, Min(3, |sorted|), Describe(e), c);
    }
  }

  /** In a descending list, a container outside a prefix has no more links
      than one inside it. */
  lemma DroppedFromPrefix(sorted: seq<Container>, n: nat, x: Container, c: Container)
    requires Descending(sorted) && n <= |sorted|
    requires x in sorted && x !in sorted[..n] && c in sorted[..n]
    ensures x.linkCount <= c.linkCount
  {
    var j :| 0 <= j < |sorted| && sorted[j] == x;
    var i :| 0 <= i < n && sorted[..n][i] == c;
    assert sorted[i] == c && i < j;
  }

  /** Among containers with the same count, the kept ones are the first
      ones in document order. */
  lemma TopKeepsDocumentOrderOnTies(els: seq<Element>, k: int)
    ensures WithCount(TopLinkContainers(els), k) <= WithCount(LinkBearing(els), k)
  {
    var bearing := LinkBearing(els);
    var sorted := SortByLinkCount(bearing);
    var n := Min(3, |sorted|);
    assert TopLinkContainers(els) == sorted[..n];
    WithCountOfPrefix(sorted, n, k);
    SortKeepsTies(bearing, k);
  }

  /** The containers with `k` links in a prefix come first among those of
      the whole list. */
  lemma WithCountOfPrefix(s: seq<Container>, n: nat, k: int)
    requires n <= |s|
    ensures WithCount(s[..n], k) <= WithCount(s, k)
  {
    assert s == s[..n] + s[n..];
    WithCountAppend(s[..n], s[n..], k);
  }

  /** When every element holds an anchor, each is described, in order. */
  lemma {:induction false} LinkBearingOfDense(els: seq<Element>)
    requires forall i :: 0 <= i < |els| ==> 0 < |els[i].hrefs|
    ensures |LinkBearing(els)| == |els|
    ensures forall i :: 0 <= i < |els| ==> LinkBearing(els)[i] == Describe(els[i])
  {
    if els != [] {
      LinkBearingOfDense(els[1..]);
    }
  }

  /** A list that is already in descending order comes out of the sort as it went in. */
  lemma {:induction false} SortKeepsDescendingInput(cs: seq<Container>)
    requires Descending(cs)
    ensures SortByLinkCount(cs) == cs
  {
    if cs != [] {
      SortKeepsDescendingInput(cs[1..]);
      assert cs == [cs[0]] + cs[1..];
    }
  }

  /** When the anchor-bearing elements already come in descending order,
      the top three are simply the first three of them. */
  lemma TopOfDescendingInput(els: seq<Element>)
    requires Descending(LinkBearing(els))
    ensures TopLinkContainers(els) == LinkBearing(els)[..Min(3, |LinkBearing(els)|)]
  {
    SortKeepsDescendingInput(LinkBearing(els));
  }

  lemma TopThreeOfFourDescending(els: seq<Element>, cs: seq<Container>)
    requires cs == LinkBearing(els) && |cs| == 4 && Descending(cs)
    ensures TopLinkContainers(els) == [cs[0], cs[1], cs[2]]
  {
    TopOfDescendingInput(els);
    FirstThreeOfFour(cs);
  }

  /** The first three of four, as the cut at three takes them. */
  lemma FirstThreeOfFour(cs: seq<Container>)
    requires |cs| == 4
    ensures cs[..Min(3, |cs|)] == [cs[0], cs[1], cs[2]]
  {
  }

  /** Four elements that each hold an anchor are described one for one. */
  lemma DenseFourBearing(els: seq<Element>)
    requires |els| == 4
    requires 0 < |els[0].hrefs| && 0 < |els[1].hrefs| && 0 < |els[2].hrefs| && 0 < |els[3].hrefs|
    ensures |LinkBearing(els)| == 4
    ensures LinkBearing(els)[0] == Describe(els[0]) && LinkBearing(els)[1] == Describe(els[1])
    ensures LinkBearing(els)[2] == Describe(els[2]) && LinkBearing(els)[3] == Describe(els[3])
  {
    LinkBearingOfDense(els);
  }

  /** Four containers whose counts fall step by step are in descending order. */
  lemma DescendingOfFour(cs: seq<Container>)
    requires |cs| == 4
    requires cs[0].linkCount >= cs[1].linkCount >= cs[2].linkCount >= cs[3].linkCount
    ensures Descending(cs)
  {
  }

  /** Four elements with 15, 10, 5 and 2 anchors: the one with 2 is dropped. */
  lemma DensestThreeOfFour(els: seq<Element>)
    requires |els| == 4
    requires |els[0].hrefs| == 15 && |els[1].hrefs| == 10 && |els[2].hrefs| == 5 && |els[3].hrefs| == 2
    ensures TopLinkContainers(els) == [Describe(els[0]), Describe(els[1]), Describe(els[2])]
  {
    var cs := LinkBearing(els);
    DenseFourBearing(els);
    DescendingOfFour(cs);
    TopThreeOfFourDescending(els, cs);
  }
}
