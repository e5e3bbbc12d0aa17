/** `clean_text` and `process_crawled_item`: literal `\n` escapes become
    newlines, then literal `\uXXXX` escapes become the code point they
    name. The same two statements appear in text_processor.py,
    text_extractor.py and aio.py; this module is the one model of them. */
module TextProcessor {
  import opened Common
  import opened Models

  const BACKSLASH: CodePoint := 0x5c
  const NEWLINE: CodePoint := 0x0a
  const LETTER_N: CodePoint := 0x6e
  const LETTER_U: CodePoint := 0x75

  /** `[0-9a-fA-F]`. */
  predicate IsHexDigit(c: CodePoint) {
    0x30 <= c <= 0x39 || 0x61 <= c <= 0x66 || 0x41 <= c <= 0x46
  }

  function HexValue(c: CodePoint): (v: nat)
    requires IsHexDigit(c)
    ensures v < 16
  {
    if c <= 0x39 then c - 0x30 else if 0x61 <= c then c - 0x61 + 10 else c - 0x41 + 10
  }

  /** `text.replace('\\n', '\n')`: each backslash followed by `n`, found
      scanning left to right, becomes one newline. */
  function ReplaceNewlineEscapes(s: Text): (r: Text)
    ensures |r| <= |s|
  {
    if |s| < 2 then s
    else if s[0] == BACKSLASH && s[1] == LETTER_N then [NEWLINE] + ReplaceNewlineEscapes(s[2..])
    else [s[0]] + ReplaceNewlineEscapes(s[1..])
  }

  /** `s` starts with a match of the pattern `\\u([0-9a-fA-F]{4})`. */
  predicate StartsUnicodeEscape(s: Text) {
    6 <= |s| && s[0] == BACKSLASH && s[1] == LETTER_U
    && IsHexDigit(s[2]) && IsHexDigit(s[3]) && IsHexDigit(s[4]) && IsHexDigit(s[5])
  }

  /** `chr(int(m.group(1), 16))`. */
  function EscapeValue(s: Text): (c: CodePoint)
    requires StartsUnicodeEscape(s)
    ensures c < 0x1_0000
  {
    ((HexValue(s[2]) * 16 + HexValue(s[3])) * 16 + HexValue(s[4])) * 16 + HexValue(s[5])
  }

  /** `re.sub(r'\\u([0-9a-fA-F]{4})', ..., text)`: matches are found
      scanning left to right and the replacement is not scanned again. */
  function DecodeUnicodeEscapes(s: Text): (r: Text)
    ensures |r| <= |s|
  {
    if |s| < 6 then s
    else if StartsUnicodeEscape(s) then [EscapeValue(s)] + DecodeUnicodeEscapes(s[6..])
    else [s[0]] + DecodeUnicodeEscapes(s[1..])
  }

  /** `clean_text`: the newline pass, then the `\u` pass. */
  function CleanText(s: Text): (r: Text)
    ensures |r| <= |s|
  {
    DecodeUnicodeEscapes(ReplaceNewlineEscapes(s))
  }

  /** `process_crawled_item`. */
  function ProcessCrawledItem(item: CrawledItem): ProcessedItem {
    ProcessedItem(item.url, CleanText(item.title), CleanText(item.textContent), item.dateCrawled)
  }

  /** A code point other than a backslash goes through the newline pass as itself. */
  lemma NewlinePassSkipsOne(x: CodePoint, t: Text)
    requires x != BACKSLASH
    ensures ReplaceNewlineEscapes([x] + t) == [x] + ReplaceNewlineEscapes(t)
  {
    var s := [x] + t;
    assert s[0] == x && s[1..] == t;
    if |s| < 2 {
      assert t == [];
    }
  }

  /** A prefix without backslashes goes through the newline pass untouched. */
  lemma {:induction false} NewlinePassSkipsPlainPrefix(p: Text, t: Text)
    requires BACKSLASH !in p
    ensures ReplaceNewlineEscapes(p + t) == p + ReplaceNewlineEscapes(t)
  {
    if p == [] {
      assert p + t == t;
    } else {
      assert p[0] in p;
      assert p + t == [p[0]] + (p[1..] + t);
      NewlinePassSkipsOne(p[0], p[1..] + t);
      NewlinePassSkipsPlainPrefix(p[1..], t);
      AppendAssoc([p[0]], p[1..], ReplaceNewlineEscapes(t));
      assert p == [p[0]] + p[1..];
    }
  }

  /** A code point other than a backslash goes through the `\u` pass as itself. */
  lemma UnicodePassSkipsOne(x: CodePoint, t: Text)
    requires x != BACKSLASH
    ensures DecodeUnicodeEscapes([x] + t) == [x] + DecodeUnicodeEscapes(t)
  {
    var s := [x] + t;
    assert s[0] == x && s[1..] == t;
  }

  /** A prefix without backslashes goes through the `\u` pass untouched. */
  lemma {:induction false} UnicodePassSkipsPlainPrefix(p: Text, t: Text)
    requires BACKSLASH !in p
    ensures DecodeUnicodeEscapes(p + t) == p + DecodeUnicodeEscapes(t)
  {
    if p == [] {
      assert p + t == t;
    } else {
      assert p[0] in p;
      assert p + t == [p[0]] + (p[1..] + t);
      UnicodePassSkipsOne(p[0], p[1..] + t);
      UnicodePassSkipsPlainPrefix(p[1..], t);
      AppendAssoc([p[0]], p[1..], DecodeUnicodeEscapes(t));
      assert p == [p[0]] + p[1..];
    }
  }

  /** Text without a backslash comes out of `clean_text` unchanged. */
  lemma NoBackslashUnchanged(s: Text)
    requires BACKSLASH !in s
    ensures CleanText(s) == s
  {
    NewlinePassSkipsPlainPrefix(s, []);
    UnicodePassSkipsPlainPrefix(s, []);
    assert s + [] == s;
  }

  /** Lower-case hex digit of `d`. */
  function HexDigit(d: nat): (c: CodePoint)
    requires d < 16
    ensures IsHexDigit(c) && HexValue(c) == d
  {
    if d < 10 then 0x30 + d else 0x61 + d - 10
  }

  /** Four lower-case hex digits of `c`, most significant first. */
  function Hex4(c: int): (h: Text)
    requires 0 <= c < 0x1_0000
    ensures |h| == 4 && BACKSLASH !in h
    ensures StartsUnicodeEscape([BACKSLASH, LETTER_U] + h)
    ensures EscapeValue([BACKSLASH, LETTER_U] + h) == c
  {
    var q1 := c / 16;
    var q2 := q1 / 16;
    var q3 := q2 / 16;
    [HexDigit(q3), HexDigit(q2 % 16), HexDigit(q1 % 16), HexDigit(c % 16)]
  }

  /** A reference escaper for `clean_text` to undo: newline as `\n`, the
      backslash and every other code point from U+0080 to U+FFFF as
      `\uXXXX`, everything else as itself. */
  function EscapeCodePoint(c: CodePoint): Text {
    if c == NEWLINE then [BACKSLASH, LETTER_N]
    else if c == BACKSLASH || 0x80 <= c < 0x1_0000 then [BACKSLASH, LETTER_U] + Hex4(c)
    else [c]
  }

  function Escape(s: Text): Text {
    if s == [] then [] else EscapeCodePoint(s[0]) + Escape(s[1..])
  }

  /** What the newline pass makes of `EscapeCodePoint(c)`. */
  function EscapeUnicodeOnly(s: Text): Text {
    if s == [] then []
    else (if s[0] == NEWLINE then [NEWLINE] else EscapeCodePoint(s[0])) + EscapeUnicodeOnly(s[1..])
  }

  /** The newline pass turns an escaped newline back into a newline. */
  lemma NewlinePassOfEscapedNewline(rest: Text)
    ensures ReplaceNewlineEscapes(EscapeCodePoint(NEWLINE) + rest) == [NEWLINE] + ReplaceNewlineEscapes(rest)
  {
    var e := [BACKSLASH, LETTER_N] + rest;
    assert e[0] == BACKSLASH && e[1] == LETTER_N && e[2..] == rest;
  }

  /** The newline pass leaves the escape of any other code point alone. */
  lemma NewlinePassOfEscapedOther(c: CodePoint, rest: Text)
    requires c != NEWLINE
    ensures ReplaceNewlineEscapes(EscapeCodePoint(c) + rest) == EscapeCodePoint(c) + ReplaceNewlineEscapes(rest)
  {
    if c == BACKSLASH || 0x80 <= c < 0x1_0000 {
      var u := [LETTER_U] + Hex4(c);
      var e := [BACKSLASH] + (u + rest);
      assert EscapeCodePoint(c) == [BACKSLASH] + u;
      AppendAssoc([BACKSLASH], u, rest);
      assert e[0] == BACKSLASH && e[1] == LETTER_U && e[1..] == u + rest;
      NewlinePassSkipsPlainPrefix(u, rest);
      AppendAssoc([BACKSLASH], u, ReplaceNewlineEscapes(rest));
    } else {
      NewlinePassSkipsOne(c, rest);
    }
  }

  lemma {:induction false} NewlinePassOfEscape(s: Text)
    ensures ReplaceNewlineEscapes(Escape(s)) == EscapeUnicodeOnly(s)
  {
    if s != [] {
      NewlinePassOfEscape(s[1..]);
      if s[0] == NEWLINE {
        NewlinePassOfEscapedNewline(Escape(s[1..]));
      } else {
        NewlinePassOfEscapedOther(s[0], Escape(s[1..]));
      }
    }
  }

  /** The `\u` pass decodes the escape of a code point other than a newline. */
  lemma UnicodePassOfEscapedOther(c: CodePoint, rest: Text)
    requires c != NEWLINE
    ensures DecodeUnicodeEscapes(EscapeCodePoint(c) + rest) == [c] + DecodeUnicodeEscapes(rest)
  {
    if c == BACKSLASH || 0x80 <= c < 0x1_0000 {
      var e := [BACKSLASH, LETTER_U] + Hex4(c) + rest;
      assert e[..6] == [BACKSLASH, LETTER_U] + Hex4(c) && e[6..] == rest;
      assert StartsUnicodeEscape(e) && EscapeValue(e) == c;
    } else {
      UnicodePassSkipsOne(c, rest);
    }
  }

  lemma {:induction false} UnicodePassOfEscape(s: Text)
    ensures DecodeUnicodeEscapes(EscapeUnicodeOnly(s)) == s
  {
    if s != [] {
      UnicodePassOfEscape(s[1..]);
      if s[0] == NEWLINE {
        UnicodePassSkipsOne(NEWLINE, EscapeUnicodeOnly(s[1..]));
      } else {
        UnicodePassOfEscapedOther(s[0], EscapeUnicodeOnly(s[1..]));
      }
      assert s == [s[0]] + s[1..];
    }
  }

  /** `clean_text` undoes the reference escaper on every text. */
  lemma CleanTextInvertsEscape(s: Text)
    ensures CleanText(Escape(s)) == s
  {
    NewlinePassOfEscape(s);
    UnicodePassOfEscape(s);
  }

  /** Cleaning an item whose title and text were escaped gives back the
      originals, with the URL and the capture time kept. */
  lemma ProcessCrawledItemInvertsEscape(url: string, title: Text, text: Text, at: Timestamp)
    ensures ProcessCrawledItem(CrawledItem(url, Escape(title), Escape(text), at))
         == ProcessedItem(url, title, text, at)
  {
    CleanTextInvertsEscape(title);
    CleanTextInvertsEscape(text);
  }

  /** An item with no backslash in its title or text keeps every field. */
  lemma ProcessCrawledItemKeepsPlainItem(item: CrawledItem)
    requires BACKSLASH !in item.title && BACKSLASH !in item.textContent
    ensures ProcessCrawledItem(item)
         == ProcessedItem(item.url, item.title, item.textContent, item.dateCrawled)
  {
    NoBackslashUnchanged(item.title);
    NoBackslashUnchanged(item.textContent);
  }

  /** `\u0041` is `A`. */
  lemma CleanTextDecodesEscapeExample()
    ensures CleanText(TextOf("\\u0041")) == TextOf("A")
  {
    var a := TextOf("\\u0041");
    assert a == [BACKSLASH, LETTER_U, 0x30, 0x30, 0x34, 0x31];
    NewlinePassSkipsOne(LETTER_U, a[2..]);
    assert ReplaceNewlineEscapes(a) == a;
    assert StartsUnicodeEscape(a) && a[6..] == [];
  }

  /** A `\u` with three hex digits is left alone. */
  lemma CleanTextKeepsShortEscapeExample()
    ensures CleanText(TextOf("\\u12")) == TextOf("\\u12")
  {
    var b := TextOf("\\u12");
    assert b == [BACKSLASH, LETTER_U, 0x31, 0x32];
    NewlinePassSkipsOne(LETTER_U, b[2..]);
  }

  /** `\n` in the middle of a text becomes a newline. */
  lemma CleanTextDecodesNewlineExample()
    ensures CleanText(TextOf("a\\nb")) == [0x61, NEWLINE, 0x62]
  {
    var c := TextOf("a\\nb");
    assert c == [0x61, BACKSLASH, LETTER_N, 0x62];
    NewlinePassSkipsOne(0x61, c[1..]);
    assert c[1..][2..] == [0x62];
  }

  /** The newline pass runs first and the `\u` pass does not rescan its
      output: `\u005cn` becomes a backslash followed by `n`. */
  lemma CleanTextDecodesOnce()
    ensures CleanText(TextOf("\\u005cn")) == TextOf("\\n")
  {
    var t := TextOf("\\u005cn");
    assert t == [BACKSLASH, LETTER_U, 0x30, 0x30, 0x35, 0x63, LETTER_N];
    NewlinePassSkipsOne(LETTER_U, t[2..]);
    assert ReplaceNewlineEscapes(t) == t;
    assert StartsUnicodeEscape(t) && EscapeValue(t) == BACKSLASH && t[6..] == [LETTER_N];
  }

  /** Only a second cleaning turns the `\n` that the first one produced
      from `\u005cn` into a newline. */
  lemma CleanTextTwiceDecodesNewline()
    ensures CleanText(CleanText(TextOf("\\u005cn"))) == [NEWLINE]
  {
    CleanTextDecodesOnce();
    var n := TextOf("\\n");
    assert n == [BACKSLASH, LETTER_N];
    assert ReplaceNewlineEscapes(n) == [NEWLINE];
  }
}
