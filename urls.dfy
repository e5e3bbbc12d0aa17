/** A simplified `urllib.parse`: the split of a URL into the components of
    section 3 of RFC 3986 as `urlsplit` does it, and reference resolution
    (section 5.2 of RFC 3986) as `urljoin` does it for http and https
    bases. */
module Urls {
  import opened Common

  datatype SplitUrl = SplitUrl(scheme: string, netloc: string, path: string, query: string, fragment: string)

  /** Index of the first `c` in `s`, or -1 (`str.find`). */
  function Find(s: string, c: char): (i: int)
    ensures -1 <= i < |s|
    ensures 0 <= i ==> s[i] == c && c !in s[..i]
    ensures i == -1 ==> c !in s
  {
    if s == [] then -1
    else if s[0] == c then 0
    else
      var j := Find(s[1..], c);
      if j == -1 then -1 else j + 1
  }

  /** Index of the first `/`, `?` or `#` in `s`, or `|s|`: where a network
      location ends. */
  function NetlocEnd(s: string): (i: nat)
    ensures i <= |s|
    ensures i < |s| ==> s[i] in "/?#"
    ensures forall k :: 0 <= k < i ==> s[k] !in "/?#"
  {
    if s == [] || s[0] in "/?#" then 0 else 1 + NetlocEnd(s[1..])
  }

  predicate IsAsciiLetter(c: char) {
    'a' <= c <= 'z' || 'A' <= c <= 'Z'
  }

  predicate IsSchemeChar(c: char) {
    IsAsciiLetter(c) || '0' <= c <= '9' || c in "+-."
  }

  function LowerChar(c: char): char {
    if 'A' <= c <= 'Z' then (c as int + 32) as char else c
  }

  /** ASCII lower-casing, as applied to a scheme. */
  function Lower(s: string): (r: string)
    ensures |r| == |s|
    ensures forall i :: 0 <= i < |s| ==> r[i] == LowerChar(s[i])
  {
    if s == [] then [] else [LowerChar(s[0])] + Lower(s[1..])
  }

  /** Splits `s` at the first `c`: the part before it and the part after
      it, or `s` and "" when there is no `c`. */
  function SplitAt(s: string, c: char): (parts: (string, string))
    ensures c !in parts.0
    ensures c in s ==> s == parts.0 + [c] + parts.1
    ensures c !in s ==> parts == (s, "")
  {
    var i := Find(s, c);
    if i < 0 then (s, "") else (s[..i], s[i + 1..])
  }

  /** A letter followed by letters, digits, `+`, `-` or `.`. */
  predicate IsSchemeName(s: string) {
    s != [] && IsAsciiLetter(s[0]) && forall k :: 0 <= k < |s| ==> IsSchemeChar(s[k])
  }

  /** The scheme and what follows its colon; "" and the whole URL when the
      text before the first colon is not a scheme. */
  function SplitScheme(url: string): (string, string) {
    var colon := Find(url, ':');
    if 0 < colon && IsSchemeName(url[..colon])
    then (Lower(url[..colon]), url[colon + 1..])
    else ("", url)
  }

  /** The network location after a leading `//`, up to the first `/`, `?`
      or `#`, and what follows it; "" and `rest` when there is no `//`. */
  function SplitNetloc(rest: string): (string, string) {
    if 2 <= |rest| && rest[..2] == "//" then
      var end := 2 + NetlocEnd(rest[2..]);
      (rest[2..end], rest[end..])
    else ("", rest)
  }

  /** The path, the query after the first `?` and the fragment after the
      first `#`. */
  function SplitPathQueryFragment(tail: string): (string, string, string) {
    var (beforeFragment, fragment) := SplitAt(tail, '#');
    var (path, query) := SplitAt(beforeFragment, '?');
    (path, query, fragment)
  }

  /** `urlsplit(url)` (leading control characters and embedded tabs and
      newlines are not stripped; bracketed hosts are not checked). */
  function Urlsplit(url: string): SplitUrl {
    var schemeRest := SplitScheme(url);
    var netlocTail := SplitNetloc(schemeRest.1);
    var parts := SplitPathQueryFragment(netlocTail.1);
    SplitUrl(schemeRest.0, netlocTail.0, parts.0, parts.1, parts.2)
  }

  /** A tail with no `?` and no `#` is all path. */
  lemma SplitOfPlainTail(tail: string)
    requires '?' !in tail && '#' !in tail
    ensures SplitPathQueryFragment(tail) == (tail, "", "")
  {
    assert SplitAt(tail, '#') == (tail, "");
    assert SplitAt(tail, '?') == (tail, "");
  }

  /** The first `c` is at `n` when `s[n]` is `c` and no `c` comes before it. */
  lemma {:induction false} FindAt(s: string, c: char, n: nat)
    requires n < |s| && s[n] == c && c !in s[..n]
    ensures Find(s, c) == n
  {
    if n > 0 {
      assert s[0] == s[..n][0];
      assert s[1..][n - 1] == c && s[1..][..n - 1] == s[..n][1..];
      FindAt(s[1..], c, n - 1);
    }
  }

  /** Text whose lower-case form is `http` or `https` is a scheme name
      free of colons. */
  lemma LowerOfWebScheme(q: string, p: string)
    requires p == "http" || p == "https"
    requires Lower(q) == p
    ensures IsSchemeName(q) && ':' !in q
  {
    forall k | 0 <= k < |q|
      ensures IsAsciiLetter(q[k])
    {
      assert LowerChar(q[k]) == p[k] && 'a' <= p[k] <= 'z';
    }
  }

  /** Lower-casing commutes with taking a prefix. */
  lemma LowerOfPrefix(s: string, n: nat)
    requires n <= |s|
    ensures Lower(s[..n]) == Lower(s)[..n]
  {
  }

  /** The text before the first colon, read case-insensitively, is `p`:
      then `p` is the scheme. */
  lemma SchemeOfLowerPrefix(url: string, p: string)
    requires p == "http" || p == "https"
    requires StartsWith(Lower(url), p + ":")
    ensures SplitScheme(url).0 == p
  {
    var n := |p|;
    assert Lower(url)[..n + 1] == p + ":";
    assert Lower(url)[n] == ':' && LowerChar(url[n]) == ':';
    LowerOfPrefix(url, n);
    assert Lower(url)[..n] == (p + ":")[..n] == p;
    LowerOfWebScheme(url[..n], p);
    FindAt(url, ':', n);
  }

  /** A scheme that was found is the lower-cased text before the first colon. */
  lemma SchemeBeforeColon(url: string)
    requires SplitScheme(url).0 != ""
    ensures var colon := Find(url, ':');
      0 < colon && url[colon] == ':' && SplitScheme(url).0 == Lower(url[..colon])
  {
  }

  /** `p` then a colon at the front of `low`. */
  lemma StartsWithThenColon(low: string, p: string)
    requires |p| < |low| && low[..|p|] == p && low[|p|] == ':'
    ensures StartsWith(low, p + ":")
  {
    assert low[..|p| + 1] == low[..|p|] + [low[|p|]];
  }

  /** Case-insensitively, the URL starts with `p:`: then its scheme is `p`. */
  lemma LowerPrefixOfScheme(url: string, p: string)
    requires p == "http" || p == "https"
    requires SplitScheme(url).0 == p
    ensures StartsWith(Lower(url), p + ":")
  {
    SchemeBeforeColon(url);
    var colon := Find(url, ':');
    LowerOfPrefix(url, colon);
    StartsWithThenColon(Lower(url), p);
  }

  /** A scheme of http or https shows as `http:` or `https:` at the front. */
  lemma WebSchemeShowsAsPrefix(url: string)
    ensures SplitScheme(url).0 in {"http", "https"}
        ==> StartsWith(Lower(url), "http:") || StartsWith(Lower(url), "https:")
  {
    var scheme := SplitScheme(url).0;
    if scheme == "http" || scheme == "https" {
      LowerPrefixOfScheme(url, scheme);
    }
  }

  /** `http:` or `https:` at the front, in any mix of cases, is a scheme
      of http or https. */
  lemma PrefixShowsWebScheme(url: string)
    ensures StartsWith(Lower(url), "http:") || StartsWith(Lower(url), "https:")
        ==> SplitScheme(url).0 in {"http", "https"}
  {
    if StartsWith(Lower(url), "http:") {
      SchemeOfLowerPrefix(url, "http");
    } else if StartsWith(Lower(url), "https:") {
      SchemeOfLowerPrefix(url, "https");
    }
  }

  /** The scheme is http or https exactly when the URL starts with `http:`
      or `https:` in any mix of cases. */
  lemma WebSchemeIffLowerPrefix(url: string)
    ensures SplitScheme(url).0 in {"http", "https"}
        <==> StartsWith(Lower(url), "http:") || StartsWith(Lower(url), "https:")
  {
    WebSchemeShowsAsPrefix(url);
    PrefixShowsWebScheme(url);
  }

  lemma SchemeOfSplit(url: string)
    ensures Urlsplit(url).scheme == SplitScheme(url).0
  {
  }

  /** When a URL has a network location, its path is empty or absolute. */
  lemma NetlocMakesPathAbsolute(url: string)
    requires Urlsplit(url).netloc != ""
    ensures Urlsplit(url).path == "" || Urlsplit(url).path[0] == '/'
  {
    var rest := SplitScheme(url).1;
    TailAfterNetloc(rest);
    PathOfDelimitedTail(SplitNetloc(rest).1);
  }

  /** After a network location, what follows is empty or starts with `/`,
      `?` or `#`. */
  lemma TailAfterNetloc(rest: string)
    requires SplitNetloc(rest).0 != ""
    ensures var tail := SplitNetloc(rest).1; tail == "" || tail[0] in "/?#"
  {
    var end := 2 + NetlocEnd(rest[2..]);
    assert SplitNetloc(rest).1 == rest[end..];
    if end < |rest| {
      assert rest[end..][0] == rest[2..][end - 2];
    }
  }

  /** After a network location, the tail is empty or starts with `/`, `?`
      or `#`; then its path is empty or starts with `/`. */
  lemma PathOfDelimitedTail(tail: string)
    requires tail == "" || tail[0] in "/?#"
    ensures var path := SplitPathQueryFragment(tail).0; path == "" || path[0] == '/'
  {
    var (beforeFragment, fragment) := SplitAt(tail, '#');
    if tail != [] && tail[0] == '#' {
      assert Find(tail, '#') == 0;
    } else if tail != [] {
      assert beforeFragment != [] && beforeFragment[0] == tail[0];
    }
    var (path, query) := SplitAt(beforeFragment, '?');
    if beforeFragment != [] && beforeFragment[0] == '?' {
      assert Find(beforeFragment, '?') == 0;
    } else if beforeFragment != [] {
      assert path != [] && path[0] == beforeFragment[0];
    }
  }

  /** The scheme of `http:...` or `https:...` is found at the first colon. */
  lemma SplitSchemeOfWebUrl(scheme: string, rest: string)
    requires scheme == "http" || scheme == "https"
    ensures SplitScheme(scheme + ":" + rest) == (scheme, rest)
  {
    var url := scheme + ":" + rest;
    var n := |scheme|;
    assert url[n] == ':' && url[..n] == scheme && url[n + 1..] == rest;
    assert Lower(scheme) == scheme;
    LowerOfWebScheme(scheme, scheme);
    FindAt(url, ':', n);
  }

  /** How an absolute http or https URL with no query and no fragment
      splits: the scheme, the host part up to the first `/`, the path. */
  lemma SplitOfWebUrl(scheme: string, netloc: string, path: string)
    requires scheme == "http" || scheme == "https"
    requires forall k :: 0 <= k < |netloc| ==> netloc[k] !in "/?#"
    requires path == "" || path[0] == '/'
    requires '?' !in path && '#' !in path
    ensures Urlsplit(scheme + "://" + netloc + path) == SplitUrl(scheme, netloc, path, "", "")
  {
    var rest := "//" + netloc + path;
    assert scheme + "://" + netloc + path == scheme + ":" + rest;
    SplitSchemeOfWebUrl(scheme, rest);
    SplitNetlocOfWebRest(netloc, path);
    SplitOfPlainTail(path);
  }

  /** `//`, a host part free of `/`, `?` and `#`, then an empty or rooted
      path: the host part is the network location and the path follows. */
  lemma SplitNetlocOfWebRest(netloc: string, path: string)
    requires forall k :: 0 <= k < |netloc| ==> netloc[k] !in "/?#"
    requires path == "" || path[0] == '/'
    ensures SplitNetloc("//" + netloc + path) == (netloc, path)
  {
    var rest := "//" + netloc + path;
    assert rest[..2] == "//" && rest[2..] == netloc + path;
    NetlocEndOfPrefix(netloc, path);
    assert rest[2..2 + |netloc|] == netloc && rest[2 + |netloc|..] == path;
  }

  /** Two texts free of `/`, `?` and `#` make one. */
  lemma NetlocTextAppend(a: string, b: string)
    requires forall k :: 0 <= k < |a| ==> a[k] !in "/?#"
    requires forall k :: 0 <= k < |b| ==> b[k] !in "/?#"
    ensures forall k :: 0 <= k < |a + b| ==> (a + b)[k] !in "/?#"
  {
    forall k | 0 <= k < |a + b|
      ensures (a + b)[k] !in "/?#"
    {
      if k >= |a| {
        assert (a + b)[k] == b[k - |a|];
      }
    }
  }

  /** A reference with no colon, no `?`, no `#` and no leading `//` is a
      bare path. */
  lemma SplitOfRelativePath(path: string)
    requires ':' !in path && '?' !in path && '#' !in path
    requires !StartsWith(path, "//")
    ensures Urlsplit(path) == SplitUrl("", "", path, "", "")
  {
    assert Find(path, ':') == -1;
    assert SplitScheme(path) == ("", path);
    SplitOfPlainTail(path);
  }

  /** The network location ends where the text free of `/`, `?` and `#`
      ends, when what follows is empty or starts with one of them. */
  lemma {:induction false} NetlocEndOfPrefix(netloc: string, tail: string)
    requires forall k :: 0 <= k < |netloc| ==> netloc[k] !in "/?#"
    requires tail == "" || tail[0] in "/?#"
    ensures NetlocEnd(netloc + tail) == |netloc|
  {
    if netloc == [] {
      assert netloc + tail == tail;
    } else {
      assert (netloc + tail)[0] == netloc[0] && (netloc + tail)[1..] == netloc[1..] + tail;
      NetlocEndOfPrefix(netloc[1..], tail);
    }
  }

  /** Schemes for which the model resolves references relative to a base;
      `urljoin` knows more (ftp, file, ws, ...), none of which the crawler's
      validated hosts can have. */
  const RelativeSchemes: set<string> := {"", "http", "https"}

  /** The path after a network location: a non-empty path that is not
      rooted gets a `/` in front. */
  function RootedPath(path: string): (r: string)
    ensures r == "" || r[0] == '/'
    ensures path == "" || path[0] == '/' ==> r == path
    ensures path != "" && path[0] != '/' ==> r != "" && r[1..] == path
  {
    if path != "" && path[0] != '/' then "/" + path else path
  }

  /** `urlunsplit`. */
  function Unsplit(u: SplitUrl): string {
    var path :=
      if u.netloc != "" || (u.scheme in {"http", "https"} && !StartsWith(u.path, "//")) then
        "//" + u.netloc + RootedPath(u.path)
      else u.path;
    var withScheme := if u.scheme != "" then u.scheme + ":" + path else path;
    var withQuery := if u.query != "" then withScheme + "?" + u.query else withScheme;
    if u.fragment != "" then withQuery + "#" + u.fragment else withQuery
  }

  /** `s.split(c)`: the pieces between the occurrences of `c`. */
  function SplitOn(s: string, c: char): (parts: seq<string>)
    ensures parts != []
    ensures forall k :: 0 <= k < |parts| ==> c !in parts[k]
    decreases |s|
  {
    var i := Find(s, c);
    if i < 0 then [s] else [s[..i]] + SplitOn(s[i + 1..], c)
  }

  /** `c.join(parts)`. */
  function JoinOn(parts: seq<string>, c: char): string {
    if parts == [] then ""
    else if |parts| == 1 then parts[0]
    else parts[0] + [c] + JoinOn(parts[1..], c)
  }

  /** Joining the pieces of a split gives the text back. */
  lemma {:induction false} JoinOnSplitOn(s: string, c: char)
    ensures JoinOn(SplitOn(s, c), c) == s
    decreases |s|
  {
    var i := Find(s, c);
    if i >= 0 {
      var head, tail := s[..i], s[i + 1..];
      SplitAround(s, i);
      JoinOnSplitOn(tail, c);
      JoinOnSplitAt(s, head, c, tail);
    } else {
      SplitOnAbsent(s, c);
    }
  }

  /** One step of the round trip: the first piece, `c`, and the join of
      the pieces after it. */
  lemma JoinOnSplitAt(s: string, head: string, c: char, tail: string)
    requires s == head + [c] + tail && c !in head
    requires JoinOn(SplitOn(tail, c), c) == tail
    ensures JoinOn(SplitOn(s, c), c) == s
  {
    SplitAtFirst(head, c, tail);
    JoinOnConsOf(head, SplitOn(tail, c), c);
  }

  /** A text around one of its positions. */
  lemma SplitAround(s: string, i: int)
    requires 0 <= i < |s|
    ensures s == s[..i] + [s[i]] + s[i + 1..]
  {
  }

  /** The join of a first piece and at least one more. */
  lemma JoinOnConsOf(head: string, rest: seq<string>, c: char)
    requires rest != []
    ensures JoinOn([head] + rest, c) == head + [c] + JoinOn(rest, c)
  {
    assert ([head] + rest)[1..] == rest;
  }

  /** Splitting at the first `c`, when none comes before it. */
  lemma SplitAtFirst(a: string, c: char, b: string)
    requires c !in a
    ensures SplitOn(a + [c] + b, c) == [a] + SplitOn(b, c)
  {
    var s := a + [c] + b;
    var n := |a|;
    assert s[..n] == a && s[n] == c && s[n + 1..] == b;
    FindAt(s, c, n);
  }

  /** A text without `c` is one piece. */
  lemma SplitOnAbsent(s: string, c: char)
    requires c !in s
    ensures SplitOn(s, c) == [s]
  {
    assert Find(s, c) == -1;
  }

  /** Splitting the join of pieces free of `c` gives the pieces back. */
  lemma {:induction false} SplitOnJoinOn(parts: seq<string>, c: char)
    requires parts != []
    requires forall k :: 0 <= k < |parts| ==> c !in parts[k]
    ensures SplitOn(JoinOn(parts, c), c) == parts
  {
    if |parts| == 1 {
      SplitOnAbsent(parts[0], c);
    } else {
      var tail := parts[1..];
      JoinOnCons(parts, c);
      SplitAtFirst(parts[0], c, JoinOn(tail, c));
      assert forall k :: 0 <= k < |tail| ==> tail[k] == parts[k + 1];
      SplitOnJoinOn(tail, c);
      assert parts == [parts[0]] + tail;
    }
  }

  /** A join of two pieces or more starts with the first piece and a `c`. */
  lemma JoinOnCons(parts: seq<string>, c: char)
    requires |parts| >= 2
    ensures JoinOn(parts, c) == parts[0] + [c] + JoinOn(parts[1..], c)
    ensures |JoinOn(parts, c)| > |parts[0]| && JoinOn(parts, c)[|parts[0]|] == c
  {
  }

  /** A character that is neither `c` nor in any piece is not in the join. */
  lemma {:induction false} NotInJoinOn(parts: seq<string>, c: char, x: char)
    requires x != c
    requires forall k :: 0 <= k < |parts| ==> x !in parts[k]
    ensures x !in JoinOn(parts, c)
  {
    if |parts| >= 2 {
      NotInJoinOn(parts[1..], c, x);
    }
  }

  /** No segment holds a `/`. */
  predicate NoSlash(segs: seq<string>) {
    forall k :: 0 <= k < |segs| ==> '/' !in segs[k]
  }

  /** `filter(None, segs)`: the non-empty segments, in order. */
  function NonEmptySegments(segs: seq<string>): (r: seq<string>)
    ensures |r| <= |segs|
    ensures forall k :: 0 <= k < |r| ==> r[k] != ""
    ensures NoSlash(segs) ==> NoSlash(r)
  {
    if segs == [] then []
    else (if segs[0] == "" then [] else [segs[0]]) + NonEmptySegments(segs[1..])
  }

  /** The filter distributes over concatenation. */
  lemma {:induction false} NonEmptySegmentsAppend(a: seq<string>, b: seq<string>)
    ensures NonEmptySegments(a + b) == NonEmptySegments(a) + NonEmptySegments(b)
  {
    if a == [] {
      assert a + b == b;
    } else {
      assert (a + b)[0] == a[0] && (a + b)[1..] == a[1..] + b;
      NonEmptySegmentsAppend(a[1..], b);
      var head := if a[0] == "" then [] else [a[0]];
      AppendAssoc(head, NonEmptySegments(a[1..]), NonEmptySegments(b));
    }
  }

  /** Segments that are all non-empty pass the filter unchanged. */
  lemma {:induction false} NonEmptySegmentsOfNonEmpty(segs: seq<string>)
    requires forall k :: 0 <= k < |segs| ==> segs[k] != ""
    ensures NonEmptySegments(segs) == segs
  {
    if segs != [] {
      NonEmptySegmentsOfNonEmpty(segs[1..]);
      assert segs == [segs[0]] + segs[1..];
    }
  }

  /** `segments[1:-1] = filter(None, segments[1:-1])`: the empty segments
      between the first and the last are dropped. */
  function FilterMiddle(segs: seq<string>): (r: seq<string>)
    ensures |segs| < 2 ==> r == segs
    ensures |segs| >= 2 ==> |r| >= 2 && r[0] == segs[0] && r[|r| - 1] == segs[|segs| - 1]
    ensures forall k :: 0 < k < |r| - 1 ==> r[k] != ""
    ensures NoSlash(segs) ==> NoSlash(r)
  {
    if |segs| < 2 then segs
    else [segs[0]] + NonEmptySegments(segs[1..|segs| - 1]) + [segs[|segs| - 1]]
  }

  predicate IsDotSegment(seg: string) {
    seg == "." || seg == ".."
  }

  /** The loop over the segments: `..` drops the last resolved segment
      when there is one, `.` is skipped, any other segment is appended. */
  function ResolveDots(segs: seq<string>): (r: seq<string>)
    ensures |r| <= |segs|
    ensures forall k :: 0 <= k < |r| ==> !IsDotSegment(r[k])
    ensures NoSlash(segs) ==> NoSlash(r)
  {
    if segs == [] then []
    else
      var resolved := ResolveDots(segs[..|segs| - 1]);
      var seg := segs[|segs| - 1];
      if seg == ".." then (if resolved == [] then [] else resolved[..|resolved| - 1])
      else if seg == "." then resolved
      else resolved + [seg]
  }

  /** The resolved segments, with an empty one added when the last segment
      was `.` or `..`, so that the path ends in `/`. */
  function Resolved(segs: seq<string>): (r: seq<string>)
    ensures forall k :: 0 <= k < |r| ==> !IsDotSegment(r[k])
    ensures NoSlash(segs) ==> NoSlash(r)
  {
    ResolveDots(segs) + (if segs != [] && IsDotSegment(segs[|segs| - 1]) then [""] else [])
  }

  /** `'/'.join(resolved_path) or '/'`. */
  function ResolvePath(segs: seq<string>): (path: string)
    ensures path != ""
  {
    var joined := JoinOn(Resolved(segs), '/');
    if joined == "" then "/" else joined
  }

  /** `bpath.split('/')` without its last segment when that is not empty:
      the directories of the base path. */
  function BaseDirectories(basePath: string): (dirs: seq<string>)
    ensures NoSlash(dirs)
  {
    var parts := SplitOn(basePath, '/');
    if parts[|parts| - 1] != "" then parts[..|parts| - 1] else parts
  }

  /** The segments `urljoin` resolves for a non-empty reference path: a
      rooted path's own, or the directories of the base path followed by
      the reference's, with the empty ones in between dropped. */
  function Segments(basePath: string, path: string): (segs: seq<string>)
    ensures NoSlash(segs)
  {
    if path != "" && path[0] == '/' then SplitOn(path, '/')
    else FilterMiddle(BaseDirectories(basePath) + SplitOn(path, '/'))
  }

  /** The path `urljoin` gives a non-empty reference path against a base
      path (section 5.2 of RFC 3986, as CPython does it). */
  function MergePaths(basePath: string, path: string): string {
    ResolvePath(Segments(basePath, path))
  }

  /** `urljoin(base, ref)`. */
  function Join(base: string, ref: string): string {
    if base == "" || ref == "" then (if base == "" then ref else base)
    else JoinSplits(Urlsplit(base), Urlsplit(ref), ref)
  }

  /** `urljoin` once both URLs are split. */
  function JoinSplits(b: SplitUrl, r: SplitUrl, ref: string): string {
    var scheme := if r.scheme == "" then b.scheme else r.scheme;
    if scheme != b.scheme || scheme !in RelativeSchemes then ref
    else if r.netloc != "" then Unsplit(SplitUrl(scheme, r.netloc, r.path, r.query, r.fragment))
    else if r.path == "" then
      Unsplit(SplitUrl(scheme, b.netloc, b.path, if r.query != "" then r.query else b.query, r.fragment))
    else Unsplit(SplitUrl(scheme, b.netloc, MergePaths(b.path, r.path), r.query, r.fragment))
  }

  /** The resolved path has no `.` or `..` segment left. */
  lemma MergedPathHasNoDotSegment(basePath: string, path: string)
    ensures forall k :: 0 <= k < |SplitOn(MergePaths(basePath, path), '/')| ==>
      !IsDotSegment(SplitOn(MergePaths(basePath, path), '/')[k])
  {
    var segs := Segments(basePath, path);
    var res := Resolved(segs);
    if JoinOn(res, '/') == "" {
      assert SplitOn("/", '/') == ["", ""] by {
        assert Find("/", '/') == 0;
        assert Find("", '/') == -1;
      }
    } else {
      assert res != [];
      SplitOnJoinOn(res, '/');
    }
  }

  /** No two `/` side by side. */
  predicate NoDoubleSlash(s: string) {
    forall k :: 0 <= k < |s| - 1 ==> !(s[k] == '/' && s[k + 1] == '/')
  }

  /** Only the first and the last of the segments may be empty. */
  predicate InnerNonEmpty(segs: seq<string>) {
    forall k :: 0 < k < |segs| - 1 ==> segs[k] != ""
  }

  /** Every segment after the first is non-empty. */
  predicate TailNonEmpty(segs: seq<string>) {
    forall k :: 1 <= k < |segs| ==> segs[k] != ""
  }

  /** Resolving segments that are non-empty after the first keeps them so. */
  lemma {:induction false} ResolveDotsKeepsNonEmpty(segs: seq<string>)
    requires TailNonEmpty(segs)
    ensures TailNonEmpty(ResolveDots(segs))
  {
    if segs != [] {
      var init := segs[..|segs| - 1];
      assert forall k :: 1 <= k < |init| ==> init[k] == segs[k];
      ResolveDotsKeepsNonEmpty(init);
      var prev := ResolveDots(init);
      if segs[|segs| - 1] == ".." && prev != [] {
        var kept := prev[..|prev| - 1];
        assert forall k :: 1 <= k < |kept| ==> kept[k] == prev[k];
      }
    }
  }

  /** Resolution keeps the inner segments non-empty. */
  lemma ResolvedInnerNonEmpty(segs: seq<string>)
    requires InnerNonEmpty(segs)
    ensures InnerNonEmpty(Resolved(segs))
  {
    if segs != [] {
      var init := segs[..|segs| - 1];
      assert forall k :: 1 <= k < |init| ==> init[k] == segs[k];
      ResolveDotsKeepsNonEmpty(init);
      var prev := ResolveDots(init);
      var seg := segs[|segs| - 1];
      if seg == ".." {
        if prev != [] {
          var kept := prev[..|prev| - 1];
          assert Resolved(segs) == kept + [""];
          assert forall k :: 1 <= k < |kept| ==> kept[k] == prev[k];
        }
      } else if seg == "." {
        assert Resolved(segs) == prev + [""];
      } else {
        assert Resolved(segs) == prev + [seg];
      }
    }
  }

  /** `/` and then a text that does not start with `/`, after a text with
      no `/`: no `//` is formed. */
  lemma SlashJoinNoDoubleSlash(a: string, b: string)
    requires '/' !in a && NoDoubleSlash(b) && (b == "" || b[0] != '/')
    ensures NoDoubleSlash(a + "/" + b)
  {
    var s := a + "/" + b;
    forall k | 0 <= k < |s| - 1
      ensures !(s[k] == '/' && s[k + 1] == '/')
    {
      if k < |a| {
        assert s[k] == a[k];
      } else if k == |a| {
        assert s[k + 1] == b[0];
      } else {
        assert s[k] == b[k - |a| - 1] && s[k + 1] == b[k - |a|];
      }
    }
  }

  /** Joining segments free of `/` whose inner ones are non-empty forms
      no `//`. */
  lemma {:induction false} JoinOnNoDoubleSlash(parts: seq<string>)
    requires NoSlash(parts)
    requires InnerNonEmpty(parts)
    ensures NoDoubleSlash(JoinOn(parts, '/'))
  {
    if |parts| == 1 {
      assert '/' !in parts[0];
    } else if |parts| >= 2 {
      var tail := parts[1..];
      JoinOnNoDoubleSlash(tail);
      var b := JoinOn(tail, '/');
      if |tail| >= 2 {
        assert tail[0] == parts[1] != "";
        assert b[0] == tail[0][0];
      } else {
        assert b == parts[1];
      }
      SlashJoinNoDoubleSlash(parts[0], b);
    }
  }

  /** A relative reference path never leaves `//` in the result: empty
      segments between the base's directories and the reference's last
      segment are dropped. (A rooted reference keeps its own.) */
  lemma RelativeMergeHasNoDoubleSlash(basePath: string, path: string)
    requires path == "" || path[0] != '/'
    ensures NoDoubleSlash(MergePaths(basePath, path))
  {
    var segs := Segments(basePath, path);
    var res := Resolved(segs);
    ResolvedInnerNonEmpty(segs);
    JoinOnNoDoubleSlash(res);
  }

  /** A segment of a path that needs no resolution. */
  predicate IsPlainSegment(seg: string) {
    seg != "" && '/' !in seg && !IsDotSegment(seg)
  }

  /** No segment is `.` or `..`. */
  predicate NoDots(segs: seq<string>) {
    forall k :: 0 <= k < |segs| ==> !IsDotSegment(segs[k])
  }

  lemma NoDotsAppend(a: seq<string>, b: seq<string>)
    requires NoDots(a) && NoDots(b)
    ensures NoDots(a + b)
  {
    forall k | 0 <= k < |a + b|
      ensures !IsDotSegment((a + b)[k])
    {
      if k >= |a| {
        assert (a + b)[k] == b[k - |a|];
      }
    }
  }

  /** Segments with no dot segment among them resolve to themselves. */
  lemma {:induction false} ResolveDotsOfPlain(segs: seq<string>)
    requires NoDots(segs)
    ensures ResolveDots(segs) == segs
  {
    if segs != [] {
      ResolveDotsOfPlain(segs[..|segs| - 1]);
    }
  }

  /** The inner segments: the base's plain directories, its trailing empty
      segment if any, and the reference's segments but the last. Only the
      trailing empty segment is filtered out. */
  lemma NonEmptyOfPlainMiddle(dirs: seq<string>, trailing: seq<string>, init: seq<string>)
    requires forall k :: 0 <= k < |dirs| ==> dirs[k] != ""
    requires forall k :: 0 <= k < |init| ==> init[k] != ""
    requires trailing == [] || trailing == [""]
    ensures NonEmptySegments(dirs + trailing + init) == dirs + init
  {
    NonEmptySegmentsAppend(dirs + trailing, init);
    NonEmptyDropsTrailing(dirs, trailing);
    NonEmptySegmentsOfNonEmpty(init);
  }

  /** Plain directories and an optional empty segment after them: only the
      directories pass. */
  lemma NonEmptyDropsTrailing(dirs: seq<string>, trailing: seq<string>)
    requires forall k :: 0 <= k < |dirs| ==> dirs[k] != ""
    requires trailing == [] || trailing == [""]
    ensures NonEmptySegments(dirs + trailing) == dirs
  {
    NonEmptySegmentsAppend(dirs, trailing);
    NonEmptySegmentsOfNonEmpty(dirs);
    if trailing == [""] {
      assert trailing[1..] == [];
    }
    assert dirs + [] == dirs;
  }

  /** The base's directories, then the reference's plain segments: only the
      base's trailing empty segment, if any, is dropped. */
  lemma FilterMiddleOfPlain(dirs: seq<string>, trailing: seq<string>, refSegs: seq<string>)
    requires forall k :: 0 <= k < |dirs| ==> dirs[k] != ""
    requires trailing == [] || trailing == [""]
    requires refSegs != [] && forall k :: 0 <= k < |refSegs| ==> refSegs[k] != ""
    ensures FilterMiddle([""] + dirs + trailing + refSegs) == [""] + dirs + refSegs
  {
    var n := |refSegs|;
    var init, lastSeg := refSegs[..n - 1], refSegs[n - 1];
    assert refSegs == init + [lastSeg];
    var mid := dirs + trailing + init;
    var segs := [""] + dirs + trailing + refSegs;
    assert segs == [""] + mid + [lastSeg];
    FilterMiddleAround(segs, "", mid, lastSeg);
    NonEmptyOfPlainMiddle(dirs, trailing, init);
    assert [""] + (dirs + init) + [lastSeg] == [""] + dirs + refSegs;
  }

  /** The inner segments are filtered, the first and the last kept. */
  lemma FilterMiddleAround(segs: seq<string>, first: string, mid: seq<string>, last: string)
    requires segs == [first] + mid + [last]
    ensures FilterMiddle(segs) == [first] + NonEmptySegments(mid) + [last]
  {
    assert segs[1..|segs| - 1] == mid;
  }

  /** The directories of a rooted base path built from segments free of
      `/`: all but its last segment, and an empty one when the path ends
      in `/`. */
  lemma BaseDirectoriesOfJoin(dirs: seq<string>, last: string)
    requires forall k :: 0 <= k < |dirs| ==> '/' !in dirs[k]
    requires '/' !in last
    ensures BaseDirectories(JoinOn([""] + dirs + [last], '/'))
         == [""] + dirs + (if last == "" then [""] else [])
  {
    var parts := [""] + dirs + [last];
    forall k | 0 <= k < |parts|
      ensures '/' !in parts[k]
    {
      if 0 < k < |parts| - 1 {
        assert parts[k] == dirs[k - 1];
      }
    }
    SplitOnJoinOn(parts, '/');
    assert parts[..|parts| - 1] == [""] + dirs;
  }

  /** The join starts with the first piece when that is not empty. */
  lemma JoinOnHead(parts: seq<string>, c: char)
    requires parts != [] && parts[0] != ""
    ensures JoinOn(parts, c) != "" && JoinOn(parts, c)[0] == parts[0][0]
  {
    if |parts| >= 2 {
      JoinOnCons(parts, c);
    }
  }

  /** The segments resolved for a relative path of plain segments against
      a rooted base path with plain directories. */
  lemma SegmentsOfPlainPaths(dirs: seq<string>, last: string, refSegs: seq<string>)
    requires forall k :: 0 <= k < |dirs| ==> IsPlainSegment(dirs[k])
    requires '/' !in last
    requires refSegs != [] && forall k :: 0 <= k < |refSegs| ==> IsPlainSegment(refSegs[k])
    ensures Segments(JoinOn([""] + dirs + [last], '/'), JoinOn(refSegs, '/')) == [""] + dirs + refSegs
  {
    var trailing := if last == "" then [""] else [];
    BaseDirectoriesOfJoin(dirs, last);
    SplitOnJoinOn(refSegs, '/');
    JoinOnHead(refSegs, '/');
    FilterMiddleOfPlain(dirs, trailing, refSegs);
  }

  /** A relative path of plain segments replaces the last segment of a
      rooted base path whose directories are plain (section 5.2.3 of RFC
      3986); a base path ending in `/` has an empty last segment. */
  lemma MergeOfPlainPaths(dirs: seq<string>, last: string, refSegs: seq<string>)
    requires forall k :: 0 <= k < |dirs| ==> IsPlainSegment(dirs[k])
    requires '/' !in last
    requires refSegs != [] && forall k :: 0 <= k < |refSegs| ==> IsPlainSegment(refSegs[k])
    ensures MergePaths(JoinOn([""] + dirs + [last], '/'), JoinOn(refSegs, '/'))
         == JoinOn([""] + dirs + refSegs, '/')
  {
    SegmentsOfPlainPaths(dirs, last, refSegs);
    var segs := [""] + dirs + refSegs;
    assert NoDots(dirs) && NoDots(refSegs);
    NoDotsAppend([""], dirs);
    NoDotsAppend([""] + dirs, refSegs);
    ResolvePathOfPlain(segs);
    assert MergePaths(JoinOn([""] + dirs + [last], '/'), JoinOn(refSegs, '/')) == ResolvePath(segs);
  }

  /** Two segments or more, none of them `.` or `..`, are joined as they are. */
  lemma ResolvePathOfPlain(segs: seq<string>)
    requires |segs| >= 2 && NoDots(segs)
    ensures ResolvePath(segs) == JoinOn(segs, '/')
  {
    ResolveDotsOfPlain(segs);
    assert Resolved(segs) == segs;
    JoinOnCons(segs, '/');
  }

  /** The split of a text written out as the join of its pieces. */
  lemma SplitOfLiteral(parts: seq<string>, s: string)
    requires parts != [] && NoSlash(parts)
    requires JoinOn(parts, '/') == s
    ensures SplitOn(s, '/') == parts
  {
    SplitOnJoinOn(parts, '/');
  }

  /** The join of two pieces. */
  lemma JoinOnTwo(x: string, y: string, c: char)
    ensures JoinOn([x, y], c) == x + [c] + y
  {
    assert [x, y][1..] == [y];
  }

  /** The join of three pieces. */
  lemma JoinOnThree(x: string, y: string, z: string, c: char)
    ensures JoinOn([x, y, z], c) == x + [c] + y + [c] + z
  {
    assert [x, y, z][1..] == [y, z];
    JoinOnTwo(y, z, c);
  }

  /** The join of four pieces. */
  lemma JoinOnFour(w: string, x: string, y: string, z: string, c: char)
    ensures JoinOn([w, x, y, z], c) == w + [c] + x + [c] + y + [c] + z
  {
    assert [w, x, y, z][1..] == [x, y, z];
    JoinOnThree(x, y, z, c);
  }

  /** A reference path that is not rooted is read against the base's
      directories. */
  lemma SegmentsOfRelative(basePath: string, path: string)
    requires path != "" && path[0] != '/'
    ensures Segments(basePath, path) == FilterMiddle(BaseDirectories(basePath) + SplitOn(path, '/'))
  {
  }

  /** The directories of `/dir//last`, the empty one kept. */
  lemma DirectoriesWithEmpty(dir: string, last: string)
    requires IsPlainSegment(dir) && IsPlainSegment(last)
    ensures BaseDirectories("/" + dir + "//" + last) == ["", dir, ""]
  {
    JoinOnFour("", dir, "", last, '/');
    assert JoinOn(["", dir, "", last], '/') == "/" + dir + "//" + last;
    BaseDirectoriesOfJoin([dir, ""], last);
    assert [""] + [dir, ""] + [last] == ["", dir, "", last];
  }

  /** The empty directory between two plain segments is dropped. */
  lemma FilterOfEmptyDirectory(dir: string, seg: string)
    requires dir != ""
    ensures FilterMiddle(["", dir, "", seg]) == ["", dir, seg]
  {
    assert ["", dir, "", seg] == [""] + [dir, ""] + [seg];
    FilterMiddleAround(["", dir, "", seg], "", [dir, ""], seg);
    assert [dir, ""][1..] == [""];
    assert NonEmptySegments([""]) == [] by {
      assert [""][1..] == [];
    }
  }

  /** The segments of a relative segment against `/dir//last`: the empty
      directory is dropped. */
  lemma SegmentsDropEmptyDirectory(dir: string, last: string, seg: string)
    requires IsPlainSegment(dir) && IsPlainSegment(last) && IsPlainSegment(seg)
    ensures Segments("/" + dir + "//" + last, seg) == ["", dir, seg]
  {
    SegmentsOfRelative("/" + dir + "//" + last, seg);
    DirectoriesWithEmpty(dir, last);
    SplitOnAbsent(seg, '/');
    assert ["", dir, ""] + [seg] == ["", dir, "", seg];
    FilterOfEmptyDirectory(dir, seg);
  }

  /** The segments of a relative segment against an empty base path. */
  lemma SegmentsOntoEmptyPath(seg: string)
    requires IsPlainSegment(seg)
    ensures Segments("", seg) == ["", seg]
  {
    SegmentsOfRelative("", seg);
    SplitOnAbsent("", '/');
    SplitOnAbsent(seg, '/');
    assert [""] + [seg] == ["", seg];
    assert ["", seg][1..1] == [];
  }

  /** A relative segment against an empty base path is put at the root. */
  lemma MergeOntoEmptyPath(seg: string)
    requires IsPlainSegment(seg)
    ensures MergePaths("", seg) == "/" + seg
  {
    SegmentsOntoEmptyPath(seg);
    assert NoDots(["", seg]);
    ResolvePathOfPlain(["", seg]);
    JoinOnTwo("", seg, '/');
  }

  /** An empty segment in the directories of the base path is dropped:
      `urljoin` of `sitemap.xml` onto `/a//b` gives `/a/sitemap.xml`. */
  lemma MergeDropsEmptyBaseSegment(dir: string, last: string, seg: string)
    requires IsPlainSegment(dir) && IsPlainSegment(last) && IsPlainSegment(seg)
    ensures MergePaths("/" + dir + "//" + last, seg) == "/" + dir + "/" + seg
  {
    SegmentsDropEmptyDirectory(dir, last, seg);
    assert NoDots(["", dir, seg]);
    ResolvePathOfPlain(["", dir, seg]);
    JoinOnThree("", dir, seg, '/');
  }

  /** The directories of `/a/b/c`. */
  lemma DirectoriesOfThree(a: string, b: string, c: string)
    requires IsPlainSegment(a) && IsPlainSegment(b) && IsPlainSegment(c)
    ensures BaseDirectories("/" + a + "/" + b + "/" + c) == ["", a, b]
  {
    JoinOnFour("", a, b, c, '/');
    assert JoinOn(["", a, b, c], '/') == "/" + a + "/" + b + "/" + c;
    BaseDirectoriesOfJoin([a, b], c);
    assert [""] + [a, b] + [c] == ["", a, b, c];
  }

  /** The pieces of `../d`. */
  lemma SplitOfDotDot(d: string)
    requires IsPlainSegment(d)
    ensures SplitOn("../" + d, '/') == ["..", d]
  {
    JoinOnTwo("..", d, '/');
    SplitOfLiteral(["..", d], "../" + d);
  }

  /** The segments of `../d` against `/a/b/c`. */
  lemma SegmentsOfDotDot(a: string, b: string, c: string, d: string)
    requires IsPlainSegment(a) && IsPlainSegment(b) && IsPlainSegment(c) && IsPlainSegment(d)
    ensures Segments("/" + a + "/" + b + "/" + c, "../" + d) == ["", a, b, "..", d]
  {
    var basePath := "/" + a + "/" + b + "/" + c;
    SegmentsOfRelative(basePath, "../" + d);
    DirectoriesOfThree(a, b, c);
    SplitOfDotDot(d);
    var segs := ["", a, b, "..", d];
    assert ["", a, b] + ["..", d] == segs;
    assert segs[1..4] == [a, b, ".."];
    NonEmptySegmentsOfNonEmpty([a, b, ".."]);
  }

  /** `..` drops the plain segment before it. */
  lemma ResolvedOfDotDot(a: string, b: string, d: string)
    requires IsPlainSegment(a) && IsPlainSegment(b) && IsPlainSegment(d)
    ensures Resolved(["", a, b, "..", d]) == ["", a, d]
  {
    var segs := ["", a, b, "..", d];
    assert ResolveDots(segs[..4]) == ["", a] by {
      assert segs[..4][..3] == ["", a, b];
      assert NoDots(["", a, b]);
      ResolveDotsOfPlain(["", a, b]);
    }
  }

  /** `..` drops the segment before it: `../d` against `/a/b/c` is `/a/d`. */
  lemma MergeRemovesDotDot(a: string, b: string, c: string, d: string)
    requires IsPlainSegment(a) && IsPlainSegment(b) && IsPlainSegment(c) && IsPlainSegment(d)
    ensures MergePaths("/" + a + "/" + b + "/" + c, "../" + d) == "/" + a + "/" + d
  {
    SegmentsOfDotDot(a, b, c, d);
    ResolvedOfDotDot(a, b, d);
    JoinOnThree("", a, d, '/');
  }

  /** The segments of `../seg` against `/`. */
  lemma SegmentsAboveRoot(seg: string)
    requires IsPlainSegment(seg)
    ensures Segments("/", "../" + seg) == ["", "..", seg]
  {
    SegmentsOfRelative("/", "../" + seg);
    DirectoriesOfRoot();
    SplitOfDotDot(seg);
    assert ["", ""] + ["..", seg] == ["", "", "..", seg];
    FilterAboveRoot(seg);
  }

  /** The directories of `/`: the root's empty segment and an empty last
      one. */
  lemma DirectoriesOfRoot()
    ensures BaseDirectories("/") == ["", ""]
  {
    JoinOnTwo("", "", '/');
    SplitOfLiteral(["", ""], "/");
  }

  /** The empty segment before `..` is dropped. */
  lemma FilterAboveRoot(seg: string)
    ensures FilterMiddle(["", "", "..", seg]) == ["", "..", seg]
  {
    assert ["", "", "..", seg] == [""] + ["", ".."] + [seg];
    FilterMiddleAround(["", "", "..", seg], "", ["", ".."], seg);
    assert ["", ".."][1..] == [".."];
    assert NonEmptySegments([".."]) == [".."] by {
      assert [".."][1..] == [];
    }
  }

  /** `..` right after the root pops the root's empty segment. */
  lemma ResolvedAboveRoot(seg: string)
    requires IsPlainSegment(seg)
    ensures Resolved(["", "..", seg]) == [seg]
  {
    var kept := ["", "..", seg];
    assert kept[..2] == ["", ".."];
    assert ["", ".."][..1] == [""];
    assert ResolveDots([""]) == [""] by {
      assert [""][..0] == [];
    }
    assert ResolveDots(["", ".."]) == [];
    assert ResolveDots(kept) == [] + [seg];
    assert !IsDotSegment(kept[2]);
  }

  /** `..` above the root drops the root's empty segment, leaving a path
      that is not rooted; `Unsplit` puts the `/` back after a host. */
  lemma MergeAboveRoot(seg: string)
    requires IsPlainSegment(seg)
    ensures MergePaths("/", "../" + seg) == seg
  {
    SegmentsAboveRoot(seg);
    ResolvedAboveRoot(seg);
  }

  /** A bare relative path is resolved against the directory of an http
      or https base URL, which keeps its scheme and host. */
  lemma JoinOfRelativePath(scheme: string, netloc: string, basePath: string, ref: string)
    requires scheme == "http" || scheme == "https"
    requires netloc != "" && forall k :: 0 <= k < |netloc| ==> netloc[k] !in "/?#"
    requires basePath == "" || basePath[0] == '/'
    requires '?' !in basePath && '#' !in basePath
    requires ref != "" && ref[0] != '/' && ':' !in ref && '?' !in ref && '#' !in ref
    ensures Join(scheme + "://" + netloc + basePath, ref)
         == scheme + "://" + netloc + RootedPath(MergePaths(basePath, ref))
  {
    var base := scheme + "://" + netloc + basePath;
    SplitOfWebUrl(scheme, netloc, basePath);
    SplitOfBarePath(ref);
    JoinOfSplits(base, ref, SplitUrl(scheme, netloc, basePath, "", ""));
    UnsplitOfWebUrl(scheme, netloc, MergePaths(basePath, ref));
  }

  lemma SplitOfBarePath(ref: string)
    requires ref != "" && ref[0] != '/' && ':' !in ref && '?' !in ref && '#' !in ref
    ensures Urlsplit(ref) == SplitUrl("", "", ref, "", "")
  {
    assert !StartsWith(ref, "//");
    SplitOfRelativePath(ref);
  }

  lemma JoinOfSplits(base: string, ref: string, b: SplitUrl)
    requires base != "" && Urlsplit(base) == b && b.scheme in {"http", "https"} && b.netloc != ""
    requires ref != "" && Urlsplit(ref) == SplitUrl("", "", ref, "", "") && ref[0] != '/'
    ensures Join(base, ref) == Unsplit(SplitUrl(b.scheme, b.netloc, MergePaths(b.path, ref), "", ""))
  {
    JoinSplitsOfRelative(b, ref);
  }

  lemma JoinSplitsOfRelative(b: SplitUrl, ref: string)
    requires b.scheme in {"http", "https"} && b.netloc != "" && ref != ""
    ensures JoinSplits(b, SplitUrl("", "", ref, "", ""), ref)
         == Unsplit(SplitUrl(b.scheme, b.netloc, MergePaths(b.path, ref), "", ""))
  {
    assert b.scheme in RelativeSchemes;
  }

  /** `urlunsplit` of a URL with a scheme, a host, a path and nothing else. */
  lemma UnsplitOfWebUrl(scheme: string, netloc: string, path: string)
    requires scheme != "" && netloc != ""
    ensures Unsplit(SplitUrl(scheme, netloc, path, "", "")) == scheme + "://" + netloc + RootedPath(path)
  {
    var rp := RootedPath(path);
    assert Unsplit(SplitUrl(scheme, netloc, path, "", "")) == scheme + ":" + ("//" + netloc + rp);
    calc {
      scheme + ":" + ("//" + netloc + rp);
      { AppendAssoc(scheme + ":", "//" + netloc, rp); }
      scheme + ":" + ("//" + netloc) + rp;
      { AppendAssoc(scheme + ":", "//", netloc); }
      scheme + ":" + "//" + netloc + rp;
      { AppendAssoc(scheme, ":", "//"); assert ":" + "//" == "://"; }
      scheme + "://" + netloc + rp;
    }
  }

  /** `[urljoin(base, l) for l in links]`. */
  function JoinAll(base: string, links: seq<string>): (r: seq<string>)
    ensures |r| == |links|
  {
    if links == [] then []
    else JoinAll(base, links[..|links| - 1]) + [Join(base, links[|links| - 1])]
  }

  /** Resolving one more link. */
  lemma JoinAllSnoc(base: string, links: seq<string>, j: nat)
    requires j < |links|
    ensures JoinAll(base, links[..j + 1]) == JoinAll(base, links[..j]) + [Join(base, links[j])]
  {
    var l := links[..j + 1];
    assert l[..|l| - 1] == links[..j];
  }

  /** Each link is resolved against the base, in place. */
  lemma {:induction false} JoinAllAt(base: string, links: seq<string>, i: nat)
    requires i < |links|
    ensures JoinAll(base, links)[i] == Join(base, links[i])
  {
    if i < |links| - 1 {
      JoinAllAt(base, links[..|links| - 1], i);
    }
  }
}
