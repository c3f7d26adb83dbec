/** Escaping plain text for HTML and back (GooglePrettify.js). */
module HtmlEscaping {
  import opened Translations
  import opened Numerals

  /** `s.replace(/pattern/g, replacement)` for a literal pattern. */
  function Replace(s: string, pattern: string, replacement: string): string
    requires pattern != ""
  {
    if s == "" then ""
    else if pattern <= s then replacement + Replace(s[|pattern|..], pattern, replacement)
    else [s[0]] + Replace(s[1..], pattern, replacement)
  }

  function TextToHtml(str: string): string {
    Replace(Replace(Replace(str, "&", "&amp;"), "<", "&lt;"), ">", "&gt;")
  }

  function AttribToHtml(str: string): string {
    Replace(Replace(Replace(Replace(str, "&", "&amp;"), "<", "&lt;"), ">", "&gt;"), "\"", "&quot;")
  }

  function UnescapeNamed(html: string): string {
    var s := Replace(Replace(html, "&lt;", "<"), "&gt;", ">");
    Replace(Replace(Replace(Replace(s, "&apos;", "'"), "&quot;", "\""), "&nbsp;", " "), "&amp;", "&")
  }

  function IndexOf(s: string, pattern: string, from: nat): (i: int)
    ensures i == -1 || (from <= i && i + |pattern| <= |s| && pattern <= s[i..])
    ensures i == -1 ==> forall j :: from <= j <= |s| ==> !(pattern <= s[j..])
    ensures i != -1 ==> forall j :: from <= j < i ==> !(pattern <= s[j..])
    decreases |s| - from
  {
    if from > |s| then -1 else if pattern <= s[from..] then from else IndexOf(s, pattern, from + 1)
  }

  /** `s.substring(i, j)`: swaps its arguments and clamps them. */
  function Substring(s: string, i: nat, j: nat): string {
    var lo, hi := if i < j then i else j, if i < j then j else i;
    if lo >= |s| then "" else if hi >= |s| then s[lo..] else s[lo..hi]
  }

  /** Either order of the ends gives what is between them, as far as the string goes. */
  lemma SubstringIs(s: string, i: nat, j: nat)
    ensures Substring(s, i, j) == Substring(s, j, i)
    ensures i <= j <= |s| ==> Substring(s, i, j) == s[i..j]
    ensures i <= |s| <= j ==> Substring(s, i, j) == s[i..]
    ensures |s| <= i && |s| <= j ==> Substring(s, i, j) == ""
  {
  }

  /** `parseInt` and `String.fromCharCode` on the digits of a reference, `None` for NaN. */
  type Decoder = (string, nat) -> Option<char>

  /** Hexadecimal after an `x`, else decimal. */
  function ReadAs(num: string, decode: Decoder): Option<char> {
    if num != "" && num[0] == 'x' then decode(num[1..], 16) else decode(num, 10)
  }

  /** The text of a numeric reference that ends at `end`; it is read from its second character on. */
  function Reference(html: string, pos: nat, end: nat, decode: Decoder): Option<char> {
    ReadAs(Substring(html, pos + 3, end), decode)
  }

  /** The text with the reference at `pos`, if it ends and can be read, replaced by its character. */
  function Replaced(html: string, pos: nat, decode: Decoder): (r: string)
    ensures |r| <= |html|
  {
    var end := IndexOf(html, ";", pos);
    if end >= 0 && Reference(html, pos, end, decode).Some? then
      assert html[end..][0] == ';';
      html[..pos] + [Reference(html, pos, end, decode).value] + html[end+1..]
    else html
  }

  /** Replaces the numeric references from `from` on. */
  function UnescapeNumeric(html: string, from: nat, decode: Decoder): string
    decreases |html| - from
  {
    var pos := IndexOf(html, "&#", from);
    if pos < 0 then html else UnescapeNumeric(Replaced(html, pos, decode), pos + 1, decode)
  }

  function Unescaped(html: string, decode: Decoder): string {
    if IndexOf(html, "&", 0) < 0 then html
    else UnescapeNamed(UnescapeNumeric(html, IndexOf(html, "&", 0), decode))
  }

  method DecodeReference(html: string, pos: nat, end: nat, decode: Decoder) returns (codePoint: Option<char>)
    ensures codePoint == Reference(html, pos, end, decode)
  {
    var num := Substring(html, pos + 3, end);
    var radix := 10;
    if num != "" && num[0] == 'x' {
      num := num[1..];
      radix := 16;
    }
    codePoint := decode(num, radix);
  }

  /** The body of the loop over references. */
  method ReplaceReference(html: string, pos: nat, decode: Decoder) returns (r: string)
    ensures r == Replaced(html, pos, decode)
  {
    hide Reference;
    r := html;
    var end := IndexOf(html, ";", pos);
    if end >= 0 {
      assert html[end..][0] == ';';
      var codePoint := DecodeReference(html, pos, end, decode);
      if codePoint.Some? {
        r := html[..pos] + [codePoint.value] + html[end+1..];
      }
    }
  }

  method HtmlToText(input: string, decode: Decoder) returns (text: string)
    ensures text == Unescaped(input, decode)
  {
    hide UnescapeNamed, Replaced;
    var html := input;
    var first := IndexOf(html, "&", 0);
    if first < 0 {
      return html;
    }
    var pos := IndexOf(html, "&#", first);
    var from := first;
    while pos >= 0
      invariant 0 <= from && pos == IndexOf(html, "&#", from)
      invariant UnescapeNumeric(html, from, decode) == UnescapeNumeric(input, first, decode)
      decreases |html| - from
    {
      ReplacedIsShort(html, pos, decode);
      html := ReplaceReference(html, pos, decode);
      from := pos + 1;
      pos := IndexOf(html, "&#", from);
    }
    text := UnescapeNamed(html);
  }

  lemma ReplacedIsShort(html: string, pos: nat, decode: Decoder)
    ensures |Replaced(html, pos, decode)| <= |html|
  {
  }

  // ---------- texts, and how they are written ----------

  /** A character of a text: an ordinary one, or a space that must not be broken. */
  datatype Symbol = Plain(c: char) | Hard {
    function Char(): char {
      if Plain? then c else ' '
    }

    function Entity(): string {
      match this
      case Plain('&') => "&amp;"
      case Plain('<') => "&lt;"
      case Plain('>') => "&gt;"
      case Plain('"') => "&quot;"
      case Plain(c) => [c]
      case Hard => "&nbsp;"
    }
  }

  /** The characters of a text. */
  function Chars(t: seq<Symbol>): string {
    if t == [] then "" else [t[0].Char()] + Chars(t[1..])
  }

  function Lifted(s: string): seq<Symbol> {
    if s == "" then [] else [Plain(s[0])] + Lifted(s[1..])
  }

  lemma {:induction false} CharsOfLifted(s: string)
    ensures Chars(Lifted(s)) == s
  {
    if s != "" {
      CharsOfLifted(s[1..]);
      assert s == [s[0]] + s[1..];
    }
  }

  /** The text with the symbols of `m` written as entities. */
  function Coded(t: seq<Symbol>, m: set<Symbol>): string {
    if t == [] then "" else Token(t[0], m) + Coded(t[1..], m)
  }

  function Token(x: Symbol, m: set<Symbol>): string {
    if x in m then x.Entity() else [x.Char()]
  }

  const MARKUP: set<Symbol> := {Plain('&'), Plain('<'), Plain('>'), Plain('"'), Hard}
  const IN_TEXT: set<Symbol> := {Plain('&'), Plain('<'), Plain('>'), Hard}

  lemma {:induction false} CodedNothing(t: seq<Symbol>)
    ensures Coded(t, {}) == Chars(t)
  {
    if t != [] {
      CodedNothing(t[1..]);
    }
  }

  lemma {:induction false} CodedConcat(a: seq<Symbol>, b: seq<Symbol>, m: set<Symbol>)
    ensures Coded(a + b, m) == Coded(a, m) + Coded(b, m)
  {
    hide Token;
    if a == [] {
      assert a + b == b;
    } else {
      CodedConcat(a[1..], b, m);
      assert (a + b)[0] == a[0] && (a + b)[1..] == a[1..] + b;
      assert Coded(a + b, m) == Token(a[0], m) + Coded(a[1..] + b, m);
    }
  }

  lemma {:induction false} CharsConcat(a: seq<Symbol>, b: seq<Symbol>)
    ensures Chars(a + b) == Chars(a) + Chars(b)
  {
    hide Chars, Symbol.Char;
    CharsParts(a);
    if a == [] {
      assert a + b == b;
    } else {
      CharsParts(a + b);
      CharsConcat(a[1..], b);
      assert (a + b)[0] == a[0] && (a + b)[1..] == a[1..] + b;
      assert [a[0].Char()] + (Chars(a[1..]) + Chars(b)) == [a[0].Char()] + Chars(a[1..]) + Chars(b);
    }
  }

  lemma CharsParts(t: seq<Symbol>)
    ensures Chars(t) == if t == [] then "" else [t[0].Char()] + Chars(t[1..])
  {
  }

  // ---------- escaping ----------

  /** Replacing copies what cannot start the pattern. */
  lemma {:induction false} ReplaceCopies(token: string, rest: string, pattern: string, replacement: string)
    requires pattern != "" && pattern[0] !in token
    ensures Replace(token + rest, pattern, replacement) == token + Replace(rest, pattern, replacement)
  {
    if token == "" {
      assert token + rest == rest;
    } else {
      var s := token + rest;
      assert s[0] == token[0] && s[1..] == token[1..] + rest;
      ReplaceCopies(token[1..], rest, pattern, replacement);
      assert token == [token[0]] + token[1..];
    }
  }

  lemma ReplaceMatch(rest: string, pattern: string, replacement: string)
    requires pattern != ""
    ensures Replace(pattern + rest, pattern, replacement) == replacement + Replace(rest, pattern, replacement)
  {
    assert (pattern + rest)[|pattern|..] == rest;
  }

  lemma ReplaceMismatch(first: char, tail: string, rest: string, pattern: string, replacement: string)
    requires pattern != "" && !(pattern <= [first] + tail + rest) && pattern[0] !in tail
    ensures Replace([first] + tail + rest, pattern, replacement) ==
      [first] + tail + Replace(rest, pattern, replacement)
  {
    assert ([first] + tail + rest)[1..] == tail + rest;
    ReplaceCopies(tail, rest, pattern, replacement);
  }

  lemma ReplaceNothing(pattern: string, replacement: string)
    requires pattern != ""
    ensures Replace("", pattern, replacement) == ""
  {
  }

  /** Escaping one more character, before any entity that contains it. */
  lemma {:induction false} EscapeStep(s: string, m: set<Symbol>, c: char)
    requires Plain(c) in MARKUP && m <= MARKUP - {Plain(c), Hard} && (c == '&' ==> m == {})
    ensures Replace(Coded(Lifted(s), m), [c], Plain(c).Entity()) == Coded(Lifted(s), m + {Plain(c)})
  {
    hide Replace;
    if s == "" {
      ReplaceNothing([c], Plain(c).Entity());
    } else {
      var x := Plain(s[0]);
      var rest := Coded(Lifted(s[1..]), m);
      EscapeStep(s[1..], m, c);
      if s[0] == c {
        ReplaceMatch(rest, [c], x.Entity());
      } else {
        ReplaceCopies(Token(x, m), rest, [c], Plain(c).Entity());
      }
    }
  }

  lemma TextIsCoded(s: string)
    ensures TextToHtml(s) == Coded(Lifted(s), {Plain('&'), Plain('<'), Plain('>')})
    ensures AttribToHtml(s) == Coded(Lifted(s), {Plain('&'), Plain('<'), Plain('>'), Plain('"')})
  {
    hide Replace, Coded, Lifted;
    CodedNothing(Lifted(s));
    CharsOfLifted(s);
    var m1 := {Plain('&')};
    var m2 := {Plain('&'), Plain('<')};
    var m3 := {Plain('&'), Plain('<'), Plain('>')};
    assert {} + {Plain('&')} == m1 && m1 + {Plain('<')} == m2 && m2 + {Plain('>')} == m3;
    assert m3 + {Plain('"')} == {Plain('&'), Plain('<'), Plain('>'), Plain('"')};
    EscapeStep(s, {}, '&');
    EscapeStep(s, m1, '<');
    EscapeStep(s, m2, '>');
    EscapeStep(s, m3, '"');
  }

  // ---------- unescaping ----------

  /** The entities that are unescaped by name: no two of them can be confused. */
  ghost predicate IsEntity(pattern: string) {
    pattern in {"&lt;", "&gt;", "&apos;", "&quot;", "&nbsp;", "&amp;"}
  }

  lemma EntitiesDiffer(token: string, rest: string, pattern: string)
    requires IsEntity(token) && IsEntity(pattern) && token != pattern
    ensures !(pattern <= token + rest)
  {
    var s := token + rest;
    assert s[1] == token[1] && s[2] == token[2];
  }

  lemma EntityShape(x: Symbol)
    requires x in MARKUP
    ensures IsEntity(x.Entity()) && x.Entity()[0] == '&' && '&' !in x.Entity()[1..]
  {
  }

  /** One symbol of the coded text, followed by the rest of it. */
  lemma UnescapeToken(x: Symbol, m: set<Symbol>, rest: string, pattern: string, c: char)
    requires IsEntity(pattern) && Plain('&') in m && m <= MARKUP
    ensures Replace(Token(x, m) + rest, pattern, [c]) ==
      (if x in m && x.Entity() == pattern then [c] else Token(x, m)) + Replace(rest, pattern, [c])
  {
    hide Replace, Symbol.Entity;
    if x !in m {
      ReplaceCopies([x.Char()], rest, pattern, [c]);
    } else {
      var token := x.Entity();
      EntityShape(x);
      if token == pattern {
        ReplaceMatch(rest, pattern, [c]);
      } else {
        EntitiesDiffer(token, rest, pattern);
        assert token == [token[0]] + token[1..];
        ReplaceMismatch(token[0], token[1..], rest, pattern, [c]);
      }
    }
  }

  /** Unescaping one entity, while every ampersand of the text is still escaped. */
  lemma {:induction false} UnescapeStep(t: seq<Symbol>, m: set<Symbol>, pattern: string, x: Symbol)
    requires Plain('&') in m && m <= MARKUP && IsEntity(pattern)
    requires if x in m then pattern == x.Entity() else forall y :: y in m ==> y.Entity() != pattern
    ensures Replace(Coded(t, m), pattern, [x.Char()]) == Coded(t, m - {x})
  {
    hide Replace, Symbol.Entity;
    if t == [] {
      ReplaceNothing(pattern, [x.Char()]);
    } else {
      UnescapeStep(t[1..], m, pattern, x);
      UnescapeToken(t[0], m, Coded(t[1..], m), pattern, x.Char());
      if t[0] in m && t[0].Entity() == pattern && x in m {
        EntityOfOne(t[0], x);
      }
    }
  }

  lemma EntityOfOne(x: Symbol, y: Symbol)
    requires x in MARKUP && y in MARKUP && x.Entity() == y.Entity()
    ensures x == y
  {
    assert x.Entity()[1] == y.Entity()[1];
  }

  lemma UnescapeCoded(t: seq<Symbol>, m: set<Symbol>)
    requires Plain('&') in m && m <= MARKUP
    ensures UnescapeNamed(Coded(t, m)) == Chars(t)
  {
    hide Replace, Coded;
    UnescapeStep(t, m, "&lt;", Plain('<'));
    var m1 := m - {Plain('<')};
    UnescapeStep(t, m1, "&gt;", Plain('>'));
    var m2 := m1 - {Plain('>')};
    UnescapeStep(t, m2, "&apos;", Plain('\''));
    assert m2 - {Plain('\'')} == m2;
    UnescapeStep(t, m2, "&quot;", Plain('"'));
    var m3 := m2 - {Plain('"')};
    UnescapeStep(t, m3, "&nbsp;", Hard);
    var m4 := m3 - {Hard};
    assert m4 == {Plain('&')};
    UnescapeStep(t, m4, "&amp;", Plain('&'));
    assert m4 - {Plain('&')} == {};
    CodedNothing(t);
  }

  /** An escaped text has no numeric reference and no bare markup character. */
  lemma {:induction false} CodedIsClean(t: seq<Symbol>, m: set<Symbol>)
    requires Plain('&') in m && m <= MARKUP
    ensures forall j :: 0 <= j <= |Coded(t, m)| ==> !("&#" <= Coded(t, m)[j..])
    ensures forall c :: c in Coded(t, m) && Plain(c) in m ==> c == '&'
  {
    if t != [] {
      CodedIsClean(t[1..], m);
      TokenIsClean(t[0], m);
      var token, rest := Token(t[0], m), Coded(t[1..], m);
      hide Token;
      var whole := Coded(t, m);
      assert whole == token + rest;
      forall j | 0 <= j <= |whole|
        ensures !("&#" <= whole[j..])
      {
        if j >= |token| {
          assert whole[j..] == rest[j - |token|..];
        } else {
          assert whole[j..][0] == token[j];
          assert j == 0 && |token| > 1 ==> whole[j..][1] == token[1];
        }
      }
    }
  }

  lemma TokenIsClean(x: Symbol, m: set<Symbol>)
    requires Plain('&') in m && m <= MARKUP
    ensures var token := Token(x, m);
      && token != "" && (forall j :: 0 < j < |token| ==> token[j] != '&')
      && (token[0] == '&' ==> |token| > 1 && token[1] != '#')
      && forall c :: c in token && Plain(c) in m ==> c == '&'
  {
  }

  /** Unescaping gives back the characters of every text, however it was written. */
  lemma UnescapeOfCoded(t: seq<Symbol>, m: set<Symbol>, decode: Decoder)
    requires Plain('&') in m && m <= MARKUP
    ensures Unescaped(Coded(t, m), decode) == Chars(t)
  {
    var html := Coded(t, m);
    CodedIsClean(t, m);
    UnescapeCoded(t, m);
    if IndexOf(html, "&", 0) < 0 {
      NoEntityNoChange(html);
    }
  }

  lemma NoEntityNoChange(html: string)
    requires forall j :: 0 <= j <= |html| ==> !("&" <= html[j..])
    ensures UnescapeNamed(html) == html
  {
    forall c | c in html
      ensures c != '&'
    {
      var j :| 0 <= j < |html| && html[j] == c;
      assert !("&" <= html[j..]);
      assert html[j..][0] == c;
    }
    assert html + "" == html;
    ReplaceCopies(html, "", "&lt;", "<");
    ReplaceCopies(html, "", "&gt;", ">");
    ReplaceCopies(html, "", "&apos;", "'");
    ReplaceCopies(html, "", "&quot;", "\"");
    ReplaceCopies(html, "", "&nbsp;", " ");
    ReplaceCopies(html, "", "&amp;", "&");
  }

  /** Unescaping gives back every escaped string, entities and all. */
  lemma EscapingRoundTrip(s: string, decode: Decoder)
    ensures Unescaped(TextToHtml(s), decode) == s
    ensures Unescaped(AttribToHtml(s), decode) == s
  {
    TextIsCoded(s);
    CharsOfLifted(s);
    UnescapeOfCoded(Lifted(s), {Plain('&'), Plain('<'), Plain('>')}, decode);
    UnescapeOfCoded(Lifted(s), {Plain('&'), Plain('<'), Plain('>'), Plain('"')}, decode);
  }

  /** Escaped text cannot open or close a tag, nor an escaped attribute its quotes. */
  lemma EscapedHasNoMarkup(s: string)
    ensures '<' !in TextToHtml(s) && '>' !in TextToHtml(s)
    ensures '<' !in AttribToHtml(s) && '>' !in AttribToHtml(s) && '"' !in AttribToHtml(s)
  {
    TextIsCoded(s);
    CodedIsClean(Lifted(s), {Plain('&'), Plain('<'), Plain('>')});
    CodedIsClean(Lifted(s), {Plain('&'), Plain('<'), Plain('>'), Plain('"')});
  }

  // ---------- numeric references ----------

  /** Nothing in the text is taken for the start of a numeric reference. */
  ghost predicate HasNoReference(html: string) {
    forall j :: 0 <= j <= |html| ==> !("&#" <= html[j..])
  }

  /** The only reference of a text is read from its second character on, or else stays as it is. */
  lemma ReferenceReplaced(pre: string, d: string, post: string, decode: Decoder)
    requires '&' !in pre && d != "" && '&' !in d && ';' !in d && HasNoReference(post)
    ensures var html := pre + "&#" + d + ";" + post;
      && IndexOf(html, "&", 0) == |pre|
      && UnescapeNumeric(html, |pre|, decode) ==
         if ReadAs(d[1..], decode).Some? then pre + [ReadAs(d[1..], decode).value] + post else html
  {
    hide UnescapeNumeric, IndexOf, HasNoReference, Around, ReadAs;
    var html := pre + "&#" + d + ";" + post;
    ReferenceParts(html, pre, d, post);
    FoundAround(html, pre, d, post, decode);
    ReferenceTaken(html, pre, d, post, decode);
    if ReadAs(d[1..], decode).Some? {
      CharacterLast(pre, ReadAs(d[1..], decode).value, post, decode);
    } else {
      NothingElse(html, pre, d, post, decode);
    }
  }

  /** The parts of a text with a reference in it. */
  ghost predicate Around(html: string, pre: string, d: string, post: string) {
    var n, end := |pre|, |pre| + |d| + 2;
    && d != "" && end < |html| && html[..n] == pre && html[end+1..] == post
    && html[n] == '&' && html[n+1] == '#' && html[end] == ';'
    && (forall j :: 0 <= j < n ==> html[j] != '&')
    && (forall j :: n <= j < end ==> html[j] != ';')
    && (forall j :: n < j <= end ==> html[j] != '&')
    && html[n+3..end] == d[1..]
  }

  lemma FoundAround(html: string, pre: string, d: string, post: string, decode: Decoder)
    requires Around(html, pre, d, post)
    ensures var n, end := |pre|, |pre| + |d| + 2;
      && end < |html| && d != ""
      && IndexOf(html, "&", 0) == n && IndexOf(html, "&#", n) == n && IndexOf(html, ";", n) == end
      && Reference(html, n, end, decode) == ReadAs(d[1..], decode)
  {
    hide IndexOf, Reference, ReadAs;
    ReferenceFound(html, |pre|, d, decode);
  }

  lemma NothingElse(html: string, pre: string, d: string, post: string, decode: Decoder)
    requires Around(html, pre, d, post) && HasNoReference(post)
    ensures UnescapeNumeric(html, |pre| + 1, decode) == html
  {
    hide UnescapeNumeric, HasNoReference;
    NoneAfter(html, |pre| + 1, |pre| + |d| + 3, post);
    NumericDone(html, |pre| + 1, decode);
  }

  /** Where a text without references comes after a stretch without ampersands, no reference starts. */
  lemma NoneAfter(html: string, from: nat, end: nat, post: string)
    requires from <= end <= |html| && html[end..] == post && HasNoReference(post)
    requires forall j :: from <= j < end ==> html[j] != '&'
    ensures forall j :: from <= j <= |html| ==> !("&#" <= html[j..])
  {
    forall j | from <= j <= |html|
      ensures !("&#" <= html[j..])
    {
      if j >= end {
        assert html[j..] == post[j-end..];
      } else {
        StartsWithChar(html, j, "&#");
      }
    }
  }

  lemma CharacterLast(pre: string, c: char, post: string, decode: Decoder)
    requires HasNoReference(post)
    ensures UnescapeNumeric(pre + [c] + post, |pre| + 1, decode) == pre + [c] + post
  {
    hide UnescapeNumeric, HasNoReference;
    var html := pre + [c] + post;
    assert html[|pre|+1..] == post;
    NoneAfter(html, |pre| + 1, |pre| + 1, post);
    NumericDone(html, |pre| + 1, decode);
  }

  lemma ReferenceParts(html: string, pre: string, d: string, post: string)
    requires html == pre + "&#" + d + ";" + post && '&' !in pre && d != "" && '&' !in d && ';' !in d
    ensures Around(html, pre, d, post)
  {
    var n, end := |pre|, |pre| + |d| + 2;
    assert forall j :: 0 <= j < n ==> html[j] == pre[j] && pre[j] in pre;
    assert forall j :: n + 2 <= j < end ==> html[j] == d[j-n-2] && d[j-n-2] in d;
  }

  /** A pattern is found where it is and not before. */
  lemma FoundAt(html: string, pattern: string, from: nat, i: nat)
    requires from <= i <= |html| && pattern <= html[i..]
    requires forall j :: from <= j < i ==> !(pattern <= html[j..])
    ensures IndexOf(html, pattern, from) == i
  {
  }

  lemma StartsWithChar(html: string, j: nat, pattern: string)
    requires j < |html| && pattern != "" && html[j] != pattern[0]
    ensures !(pattern <= html[j..])
  {
    assert html[j..][0] == html[j];
  }

  lemma ReferenceFound(html: string, n: nat, d: string, decode: Decoder)
    requires d != "" && n + |d| + 2 < |html|
    requires html[n] == '&' && html[n+1] == '#' && html[n+|d|+2] == ';'
    requires forall j :: 0 <= j < n ==> html[j] != '&'
    requires forall j :: n <= j < n + |d| + 2 ==> html[j] != ';'
    requires html[n+3..n+|d|+2] == d[1..]
    ensures var end := n + |d| + 2;
      && IndexOf(html, "&", 0) == n && IndexOf(html, "&#", n) == n && IndexOf(html, ";", n) == end
      && Reference(html, n, end, decode) == ReadAs(d[1..], decode)
  {
    hide IndexOf;
    var end := n + |d| + 2;
    forall j | 0 <= j < n
      ensures !("&" <= html[j..])
    {
      StartsWithChar(html, j, "&");
    }
    forall j | n <= j < end
      ensures !(";" <= html[j..])
    {
      StartsWithChar(html, j, ";");
    }
    assert html[n..][0] == '&' && html[n..][1] == '#' && html[end..][0] == ';';
    FoundAt(html, "&", 0, n);
    FoundAt(html, "&#", n, n);
    FoundAt(html, ";", n, end);
  }

  lemma ReferenceTaken(html: string, pre: string, d: string, post: string, decode: Decoder)
    requires Around(html, pre, d, post)
    requires IndexOf(html, "&#", |pre|) == |pre| && IndexOf(html, ";", |pre|) == |pre| + |d| + 2 < |html|
    requires d != "" && Reference(html, |pre|, |pre| + |d| + 2, decode) == ReadAs(d[1..], decode)
    ensures UnescapeNumeric(html, |pre|, decode) ==
      match ReadAs(d[1..], decode)
      case Some(c) => UnescapeNumeric(pre + [c] + post, |pre| + 1, decode)
      case None => UnescapeNumeric(html, |pre| + 1, decode)
  {
    hide UnescapeNumeric, IndexOf, Reference, ReadAs;
    NumericStep(html, |pre|, decode);
  }

  lemma NumericStep(html: string, pos: nat, decode: Decoder)
    requires IndexOf(html, "&#", pos) == pos && pos < |html|
    requires var end := IndexOf(html, ";", pos); pos < end < |html|
    ensures var end := IndexOf(html, ";", pos);
      UnescapeNumeric(html, pos, decode) ==
      match Reference(html, pos, end, decode)
      case Some(c) => UnescapeNumeric(html[..pos] + [c] + html[end+1..], pos + 1, decode)
      case None => UnescapeNumeric(html, pos + 1, decode)
  {
    hide IndexOf, Replaced, Reference;
    ReplacedAt(html, pos, decode);
    assert UnescapeNumeric(html, pos, decode) == UnescapeNumeric(Replaced(html, pos, decode), pos + 1, decode);
  }

  lemma ReplacedAt(html: string, pos: nat, decode: Decoder)
    requires var end := IndexOf(html, ";", pos); pos < end < |html|
    ensures var end := IndexOf(html, ";", pos);
      Replaced(html, pos, decode) ==
      match Reference(html, pos, end, decode)
      case Some(c) => html[..pos] + [c] + html[end+1..]
      case None => html
  {
    hide IndexOf, Reference;
  }

  lemma NumericDone(html: string, from: nat, decode: Decoder)
    requires forall j :: from <= j <= |html| ==> !("&#" <= html[j..])
    ensures UnescapeNumeric(html, from, decode) == html
  {
    NoReference(html, from);
  }

  lemma NoReference(html: string, from: nat)
    requires forall j :: from <= j <= |html| ==> !("&#" <= html[j..])
    ensures IndexOf(html, "&#", from) < 0
  {
  }

  /** A numeric reference alone is what its text says from the second character on, or else stays as it is. */
  lemma ReferenceIsRead(d: string, decode: Decoder)
    requires d != "" && '&' !in d && ';' !in d
    ensures Unescaped("&#" + d + ";", decode) ==
      if ReadAs(d[1..], decode).Some? then [ReadAs(d[1..], decode).value] else "&#" + d + ";"
  {
    hide UnescapeNamed, UnescapeNumeric, IndexOf;
    var html := "&#" + d + ";";
    ReferenceReplaced("", d, "", decode);
    assert "" + "&#" + d + ";" + "" == html;
    if ReadAs(d[1..], decode).Some? {
      var c := ReadAs(d[1..], decode).value;
      assert "" + [c] + "" == [c];
      NamedInShort(c);
    } else {
      NamedInReference(d);
    }
  }

  /** The text goes on as an entity whose ampersand has gone before. */
  predicate GoesOn(post: string) {
    || "lt;" <= post || "gt;" <= post || "apos;" <= post || "quot;" <= post || "nbsp;" <= post || "amp;" <= post
  }

  /**
    The only numeric reference of a text gives its character in its place, and the rest is unescaped as if on
    its own, exactly when the character is no ampersand that what follows makes an entity of.
   */
  lemma ReferenceInContext(pre: string, d: string, post: string, decode: Decoder)
    requires '&' !in pre && d != "" && '&' !in d && ';' !in d && HasNoReference(post)
    requires ReadAs(d[1..], decode).Some?
    ensures var c := ReadAs(d[1..], decode).value;
      Unescaped(pre + "&#" + d + ";" + post, decode) == pre + [c] + UnescapeNamed(post) <==> c != '&' || !GoesOn(post)
  {
    hide UnescapeNamed, UnescapeNumeric, IndexOf, GoesOn;
    var c := ReadAs(d[1..], decode).value;
    ReferenceReplaced(pre, d, post, decode);
    assert pre + [c] + post == pre + ([c] + post);
    NamedCopies(pre, [c] + post);
    if c == '&' {
      AmpersandBefore(post);
      assert pre + [c] + UnescapeNamed(post) == pre + ("&" + UnescapeNamed(post));
      SamePrefix(pre, UnescapeNamed("&" + post), "&" + UnescapeNamed(post));
    } else {
      NamedCopies([c], post);
      assert pre + ([c] + UnescapeNamed(post)) == pre + [c] + UnescapeNamed(post);
    }
  }

  lemma SamePrefix(pre: string, s: string, t: string)
    ensures pre + s == pre + t <==> s == t
  {
    if pre + s == pre + t {
      assert (pre + s)[|pre|..] == s && (pre + t)[|pre|..] == t;
    }
  }

  /** The ends of the entities unescaped by name, in that order, and their characters. */
  const TAILS: seq<string> := ["lt;", "gt;", "apos;", "quot;", "nbsp;", "amp;"]
  const CHARACTERS: string := "<>'\" &"

  /** Unescaping by name, from the entity number `k` on. */
  function NamedFrom(s: string, k: nat): string
    decreases 6 - k
  {
    if k >= 6 then s else NamedFrom(Replace(s, "&" + TAILS[k], [CHARACTERS[k]]), k + 1)
  }

  lemma NamedIsFrom(s: string)
    ensures UnescapeNamed(s) == NamedFrom(s, 0)
  {
    hide Replace;
    assert "&" + "lt;" == "&lt;" && "&" + "gt;" == "&gt;" && "&" + "apos;" == "&apos;";
    assert "&" + "quot;" == "&quot;" && "&" + "nbsp;" == "&nbsp;" && "&" + "amp;" == "&amp;";
    var s1 := Replace(s, "&lt;", "<");
    var s2 := Replace(s1, "&gt;", ">");
    var s3 := Replace(s2, "&apos;", "'");
    var s4 := Replace(s3, "&quot;", "\"");
    var s5 := Replace(s4, "&nbsp;", " ");
    assert NamedFrom(s5, 5) == Replace(s5, "&amp;", "&");
    assert NamedFrom(s4, 4) == NamedFrom(s5, 5);
    assert NamedFrom(s3, 3) == NamedFrom(s4, 4);
    assert NamedFrom(s2, 2) == NamedFrom(s3, 3);
    assert NamedFrom(s1, 1) == NamedFrom(s2, 2);
    assert NamedFrom(s, 0) == NamedFrom(s1, 1);
  }

  lemma TailShape(k: nat)
    requires k < 6
    ensures |TAILS| == |CHARACTERS| == 6 && TAILS[k] != "" && '&' !in TAILS[k]
    ensures CHARACTERS[k] == '&' <==> k == 5
    ensures forall i :: 0 <= i < 6 && k < 5 ==> CHARACTERS[k] !in TAILS[i]
  {
  }

  /** What has no ampersand is copied. */
  lemma {:induction false} CopiesFrom(token: string, rest: string, k: nat)
    requires '&' !in token
    ensures NamedFrom(token + rest, k) == token + NamedFrom(rest, k)
    decreases 6 - k
  {
    hide Replace;
    if k < 6 {
      ReplaceCopies(token, rest, "&" + TAILS[k], [CHARACTERS[k]]);
      CopiesFrom(token, Replace(rest, "&" + TAILS[k], [CHARACTERS[k]]), k + 1);
    }
  }

  lemma NamedCopies(token: string, rest: string)
    requires '&' !in token
    ensures UnescapeNamed(token + rest) == token + UnescapeNamed(rest)
  {
    hide UnescapeNamed, NamedFrom;
    NamedIsFrom(token + rest);
    NamedIsFrom(rest);
    CopiesFrom(token, rest, 0);
  }

  /** Each of the six named entities gives its character, and the rest is unescaped as if on its own. */
  lemma NamedEntity(pre: string, k: nat, post: string)
    requires '&' !in pre && k < 6
    ensures UnescapeNamed(pre + ("&" + TAILS[k] + post)) == pre + ([CHARACTERS[k]] + UnescapeNamed(post))
  {
    hide UnescapeNamed, NamedFrom;
    var s := "&" + TAILS[k] + post;
    NamedCopies(pre, s);
    NamedIsFrom(s);
    NamedIsFrom(post);
    EntityFrom(k, post, 0);
  }

  lemma {:induction false} EntityFrom(k: nat, post: string, j: nat)
    requires j <= k < 6
    ensures NamedFrom("&" + TAILS[k] + post, j) == [CHARACTERS[k]] + NamedFrom(post, j)
    decreases k - j
  {
    hide Replace;
    var s, c := "&" + (TAILS[k] + post), CHARACTERS[j];
    var next := Replace(post, "&" + TAILS[j], [c]);
    assert s == "&" + TAILS[k] + post;
    TailShape(j);
    TailShape(k);
    OneAfterAmpersand(TAILS[k] + post, TAILS[j], c);
    if j < k {
      TailsApart(j, k, post);
      ReplaceCopies(TAILS[k], post, "&" + TAILS[j], [c]);
      assert "&" + (TAILS[k] + next) == "&" + TAILS[k] + next;
      EntityFrom(k, next, j + 1);
    } else {
      assert (TAILS[k] + post)[|TAILS[k]|..] == post;
      if k < 5 {
        CopiesFrom([c], next, k + 1);
      }
    }
  }

  lemma TailsApart(j: nat, k: nat, post: string)
    requires j < k < 6
    ensures !(TAILS[j] <= TAILS[k] + post)
  {
    var s := TAILS[k] + post;
    assert |TAILS[j]| > 1 && |TAILS[k]| > 1 && s[0] == TAILS[k][0] && s[1] == TAILS[k][1];
    assert TAILS[j][0] != TAILS[k][0] || TAILS[j][1] != TAILS[k][1];
  }

  /** Unescaping one entity neither makes nor unmakes the end of another at the start of the text. */
  lemma {:induction false} TailStays(post: string, pattern: string, c: char, tail: string)
    requires pattern != "" && pattern[0] == '&' && c !in tail && '&' !in tail
    ensures tail <= Replace(post, pattern, [c]) <==> tail <= post
  {
    hide Replace;
    ReplaceFirst(post, pattern, c);
    if tail != "" && post != "" {
      PrefixStep(tail, post);
      PrefixStep(tail, Replace(post, pattern, [c]));
      if !(pattern <= post) {
        TailStays(post[1..], pattern, c, tail[1..]);
      }
    }
  }

  lemma PrefixStep(tail: string, s: string)
    requires tail != ""
    ensures tail <= s <==> s != "" && tail[0] == s[0] && tail[1..] <= s[1..]
  {
    if s != "" && tail[0] == s[0] && tail[1..] <= s[1..] {
      assert tail == [tail[0]] + tail[1..] && s == [s[0]] + s[1..];
    }
  }

  lemma ReplaceFirst(s: string, pattern: string, c: char)
    requires pattern != ""
    ensures var r := Replace(s, pattern, [c]);
      if s == "" then r == ""
      else if pattern <= s then r != "" && r[0] == c && s[0] == pattern[0]
      else r != "" && r[0] == s[0] && r[1..] == Replace(s[1..], pattern, [c])
  {
  }

  /** Unescaping one entity, after an ampersand of the text itself. */
  lemma OneAfterAmpersand(post: string, tail: string, c: char)
    requires tail != "" && '&' !in tail
    ensures Replace("&" + post, "&" + tail, [c]) ==
      if tail <= post then [c] + Replace(post[|tail|..], "&" + tail, [c]) else "&" + Replace(post, "&" + tail, [c])
  {
    var s, pattern := "&" + post, "&" + tail;
    assert s[1..] == post && pattern[1..] == tail;
    assert pattern <= s <==> tail <= post;
    if tail <= post {
      assert s[|pattern|..] == post[|tail|..];
    }
  }

  /** The text goes on as one of the entities from number `k` on. */
  predicate GoesOnFrom(post: string, k: nat) {
    exists i :: k <= i < 6 && TAILS[i] <= post
  }

  /** An ampersand stays on its own exactly when what follows does not go on as an entity. */
  lemma {:induction false} AmpersandFrom(post: string, k: nat)
    ensures NamedFrom("&" + post, k) == "&" + NamedFrom(post, k) <==> !GoesOnFrom(post, k)
    decreases 6 - k
  {
    hide Replace;
    if k < 6 {
      var tail, c := TAILS[k], CHARACTERS[k];
      var next := Replace(post, "&" + tail, [c]);
      TailShape(k);
      OneAfterAmpersand(post, tail, c);
      if tail <= post {
        EntityGoesOn(post, k);
      } else {
        AmpersandFrom(next, k + 1);
        TailsStay(post, k);
        assert GoesOnFrom(post, k) <==> GoesOnFrom(post, k + 1);
      }
    }
  }

  lemma EntityGoesOn(post: string, k: nat)
    requires k < 6 && TAILS[k] <= post
    ensures NamedFrom("&" + post, k) != "&" + NamedFrom(post, k)
  {
    hide Replace;
    var tail, c := TAILS[k], CHARACTERS[k];
    var rest := Replace(post[|tail|..], "&" + tail, [c]);
    TailShape(k);
    OneAfterAmpersand(post, tail, c);
    assert post == tail + post[|tail|..];
    ReplaceCopies(tail, post[|tail|..], "&" + tail, [c]);
    if k < 5 {
      CopiesFrom([c], rest, k + 1);
      assert ([c] + NamedFrom(rest, k + 1))[0] != ("&" + NamedFrom(post, k))[0];
    } else {
      LastEntity(rest, tail);
    }
  }

  lemma LastEntity(rest: string, tail: string)
    requires tail != ""
    ensures NamedFrom("&" + rest, 6) != "&" + NamedFrom(tail + rest, 6)
  {
    assert |"&" + rest| != |"&" + (tail + rest)|;
  }

  lemma TailsStay(post: string, k: nat)
    requires k < 6
    ensures GoesOnFrom(Replace(post, "&" + TAILS[k], [CHARACTERS[k]]), k + 1) <==> GoesOnFrom(post, k + 1)
  {
    hide Replace;
    forall i | k < i < 6
      ensures TAILS[i] <= Replace(post, "&" + TAILS[k], [CHARACTERS[k]]) <==> TAILS[i] <= post
    {
      TailShape(k);
      TailShape(i);
      TailStays(post, "&" + TAILS[k], CHARACTERS[k], TAILS[i]);
    }
  }

  lemma AmpersandBefore(post: string)
    ensures UnescapeNamed("&" + post) == "&" + UnescapeNamed(post) <==> !GoesOn(post)
  {
    hide UnescapeNamed, NamedFrom;
    NamedIsFrom("&" + post);
    NamedIsFrom(post);
    AmpersandFrom(post, 0);
    assert TAILS[0] == "lt;" && TAILS[1] == "gt;" && TAILS[2] == "apos;";
    assert TAILS[3] == "quot;" && TAILS[4] == "nbsp;" && TAILS[5] == "amp;";
  }

  /** In a text, a reference that is read right gives its character exactly when that is not unescaped again. */
  lemma ReadRightInContext(pre: string, d: string, post: string, chars: nat -> char)
    requires '&' !in pre && HasNoReference(post) && IsReference(d) && IsReadRight(d)
    ensures var c := chars(NumberMeant(d));
      Unescaped(pre + "&#" + d + ";" + post, CharacterOf(chars)) == pre + [c] + UnescapeNamed(post) <==>
        c != '&' || !GoesOn(post)
  {
    hide Unescaped, UnescapeNamed, HasNoReference, GoesOn, ParseInt, IsReadRight, Value;
    NoMarkupInReference(d);
    ReferenceReadRight(d, chars);
    NumberIsRead(d, chars);
    ReferenceInContext(pre, d, post, CharacterOf(chars));
  }

  lemma NumberIsRead(d: string, chars: nat -> char)
    requires d != "" && NumberRead(d).Some?
    ensures ReadAs(d[1..], CharacterOf(chars)) == Some(chars(NumberRead(d).value))
  {
    hide ParseInt;
    assert |d| > 1 ==> d[1..][0] == d[1] && d[1..][1..] == d[2..];
  }

  /** A reference to an ampersand is unescaped once more with what follows it. */
  lemma UnescapedAgain(chars: nat -> char)
    requires chars(38) == '&'
    ensures Unescaped("&#038;lt;", CharacterOf(chars)) != "&lt;"
  {
    hide Unescaped, UnescapeNamed;
    NumberOf38();
    assert "038"[1..] == "38";
    assert "" + "&#" + "038" + ";" + "lt;" == "&#038;lt;";
    NoneAfter("lt;", 0, 3, "");
    ReferenceInContext("", "038", "lt;", CharacterOf(chars));
    NamedCopies("lt;", "");
    NamedNothing();
    assert "lt;" + "" == "lt;" && "" + ['&'] + "lt;" == "&lt;";
  }

  lemma NumberOf38()
    ensures ParseInt("38", 10) == Some(38)
  {
    assert "38"[1..] == "8" && "8"[1..] == "";
    assert Leading("8", 10) == "8";
    assert Leading("38", 10) == "38";
    assert "38"[..1] == "3" && "3"[..0] == "";
    assert Value("3", 10) == 3;
  }

  lemma NamedNothing()
    ensures UnescapeNamed("") == ""
  {
  }

  lemma NamedInShort(c: char)
    ensures UnescapeNamed([c]) == [c]
  {
    hide Replace;
    ReplaceInShort(c, "&lt;", "<");
    ReplaceInShort(c, "&gt;", ">");
    ReplaceInShort(c, "&apos;", "'");
    ReplaceInShort(c, "&quot;", "\"");
    ReplaceInShort(c, "&nbsp;", " ");
    ReplaceInShort(c, "&amp;", "&");
  }

  lemma ReplaceInShort(c: char, pattern: string, replacement: string)
    requires |pattern| > 1
    ensures Replace([c], pattern, replacement) == [c]
  {
    assert [c][1..] == "";
  }

  lemma NamedInReference(d: string)
    requires '&' !in d
    ensures UnescapeNamed("&#" + d + ";") == "&#" + d + ";"
  {
    hide Replace;
    NamedMismatch(d, "&lt;", "<");
    NamedMismatch(d, "&gt;", ">");
    NamedMismatch(d, "&apos;", "'");
    NamedMismatch(d, "&quot;", "\"");
    NamedMismatch(d, "&nbsp;", " ");
    NamedMismatch(d, "&amp;", "&");
  }

  lemma NamedMismatch(d: string, pattern: string, replacement: string)
    requires '&' !in d && IsEntity(pattern)
    ensures Replace("&#" + d + ";", pattern, replacement) == "&#" + d + ";"
  {
    var html := "&#" + d + ";";
    var tail := "#" + d + ";";
    assert html[1] == '#' && html == ['&'] + tail + "";
    assert '&' !in tail;
    ReplaceMismatch('&', tail, "", pattern, replacement);
    ReplaceNothing(pattern, replacement);
  }

  // ---------- the numbers of references ----------

  /** The digits a string starts with. */
  function Leading(s: string, radix: nat): (digits: string)
    ensures digits <= s && AllDigits(digits, radix)
    ensures |digits| < |s| ==> Digit(s[|digits|], radix) == None
  {
    if s == "" || Digit(s[0], radix) == None then ""
    else
      assert s == [s[0]] + s[1..];
      [s[0]] + Leading(s[1..], radix)
  }

  /** `parseInt`, on strings that start with no sign, space or prefix. */
  function ParseInt(s: string, radix: nat): Option<nat> {
    if Leading(s, radix) == "" then None else Some(Value(Leading(s, radix), radix))
  }

  /** Parses a number and takes the character of that code. */
  function CharacterOf(chars: nat -> char): Decoder {
    (s: string, radix: nat) =>
      match ParseInt(s, radix)
      case None => None
      case Some(n) => Some(chars(n))
  }

  /** Between `&#` and `;`: a decimal number, or an `x` and a hexadecimal one. */
  predicate IsReference(d: string) {
    d != "" && (AllDigits(d, 10) || ((d[0] == 'x' || d[0] == 'X') && |d| > 1 && AllDigits(d[1..], 16)))
  }

  function NumberMeant(d: string): nat
    requires IsReference(d)
  {
    if AllDigits(d, 10) then Value(d, 10) else Value(d[1..], 16)
  }

  /** The number of which a reference gets the character, if any. */
  function NumberRead(d: string): Option<nat>
    requires d != ""
  {
    if |d| > 1 && d[1] == 'x' then ParseInt(d[2..], 16) else ParseInt(d[1..], 10)
  }

  /** A decimal number that starts with a nought, or a hexadecimal one below ten. */
  predicate IsReadRight(d: string)
    requires IsReference(d)
  {
    if AllDigits(d, 10) then d[0] == '0' && |d| > 1
    else AllDigits(d[|d|-1..], 10) && forall i :: 1 <= i < |d| - 1 ==> d[i] == '0'
  }

  /** A numeric reference gets the character of the number it means exactly when it is one of these. */
  lemma ReferenceReadRight(d: string, chars: nat -> char)
    requires IsReference(d)
    ensures Unescaped("&#" + d + ";", CharacterOf(chars)) ==
      if NumberRead(d).Some? then [chars(NumberRead(d).value)] else "&#" + d + ";"
    ensures NumberRead(d) == Some(NumberMeant(d)) <==> IsReadRight(d)
  {
    hide Unescaped, Value;
    NoMarkupInReference(d);
    ReferenceIsRead(d, CharacterOf(chars));
    assert |d| > 1 ==> d[1..][0] == d[1] && d[1..][1..] == d[2..];
    if AllDigits(d, 10) {
      DecimalReadRight(d);
    } else {
      assert Digit(d[1..][0], 16).Some?;
      HexadecimalReadRight(d[1..]);
      assert d[1..][|d|-2..] == d[|d|-1..];
      assert forall i :: 1 <= i < |d| ==> d[1..][i-1] == d[i];
      assert forall i :: 0 <= i < |d| - 2 ==> d[1..][i] == d[i+1];
    }
  }

  lemma NoMarkupInReference(d: string)
    requires IsReference(d)
    ensures '&' !in d && ';' !in d
  {
    forall i | 0 <= i < |d|
      ensures d[i] != '&' && d[i] != ';'
    {
      if !AllDigits(d, 10) && i > 0 {
        assert d[1..][i-1] == d[i];
      }
    }
  }

  lemma {:induction false} AllLeading(s: string, radix: nat)
    requires AllDigits(s, radix)
    ensures Leading(s, radix) == s
  {
    if s != "" {
      AllLeading(s[1..], radix);
      assert s == [s[0]] + s[1..];
    }
  }

  lemma ValueStep(s: string, last: char, radix: nat)
    requires AllDigits(s, radix) && AllDigits(s + [last], radix)
    ensures Digit(last, radix).Some?
    ensures Value(s + [last], radix) == Value(s, radix) * radix + Digit(last, radix).value
  {
    assert (s + [last])[..|s|] == s && (s + [last])[|s|] == last;
  }

  lemma ScaledCompare(a: nat, b: nat, radix: nat)
    requires radix > 0
    ensures a * radix == b * radix <==> a == b
    ensures a >= b ==> a * radix >= b * radix
  {
    if a > b {
      assert a * radix == b * radix + (a - b) * radix && (a - b) * radix >= 1;
    } else if a < b {
      assert b * radix == a * radix + (b - a) * radix && (b - a) * radix >= 1;
    }
  }

  /** A first digit counts for nothing exactly when it is a nought. */
  lemma {:induction false} FirstDigitCounts(c: char, s: string, radix: nat)
    requires radix >= 10 && AllDigits([c] + s, radix) && AllDigits(s, radix)
    ensures Value([c] + s, radix) == Value(s, radix) <==> c == '0'
    ensures Value([c] + s, radix) >= Value(s, radix)
  {
    var whole := [c] + s;
    assert whole[0] == c;
    if s == "" {
      assert whole[..0] == "" && whole == [c];
    } else {
      hide Value;
      var n := |s| - 1;
      var head, last := s[..n], s[n];
      assert s == head + [last] && whole == ([c] + head) + [last];
      assert forall i :: 0 <= i <= n ==> ([c] + head)[i] == whole[i];
      ValueStep(head, last, radix);
      ValueStep([c] + head, last, radix);
      FirstDigitCounts(c, head, radix);
      ScaledCompare(Value([c] + head, radix), Value(head, radix), radix);
    }
  }

  lemma DecimalReadRight(d: string)
    requires d != "" && AllDigits(d, 10)
    ensures NumberRead(d) == Some(Value(d, 10)) <==> d[0] == '0' && |d| > 1
  {
    assert d == [d[0]] + d[1..];
    AllLeading(d[1..], 10);
    FirstDigitCounts(d[0], d[1..], 10);
    assert |d| > 1 ==> d[1] != 'x';
  }

  /** All but the last digit are noughts. */
  predicate OneDigit(s: string) {
    forall i :: 0 <= i < |s| - 1 ==> s[i] == '0'
  }

  lemma {:induction false} AllNoughts(s: string, radix: nat)
    requires radix >= 10 && AllDigits(s, radix)
    ensures Value(s, radix) == 0 <==> forall i :: 0 <= i < |s| ==> s[i] == '0'
  {
    if s != "" {
      var n := |s| - 1;
      AllNoughts(s[..n], radix);
      var v := Value(s[..n], radix);
      assert v > 0 ==> v * radix > 0;
      assert (forall i :: 0 <= i < |s| ==> s[i] == '0') <==>
        (forall i :: 0 <= i < n ==> s[..n][i] == '0') && s[n] == '0';
    }
  }

  /** Decimal digits mean more in hexadecimal, but for a single one. */
  lemma {:induction false} DecimalBelow(s: string)
    requires AllDigits(s, 10) && AllDigits(s, 16)
    ensures Value(s, 10) <= Value(s, 16)
    ensures Value(s, 10) == Value(s, 16) <==> OneDigit(s)
  {
    if s != "" {
      var n := |s| - 1;
      DecimalBelow(s[..n]);
      AllNoughts(s[..n], 16);
      AllNoughts(s[..n], 10);
      assert OneDigit(s) <==> forall i :: 0 <= i < n ==> s[..n][i] == '0';
    }
  }

  /** Further hexadecimal digits add what they mean at least. */
  lemma {:induction false} MoreDigits(p: string, q: string)
    requires AllDigits(p, 16) && AllDigits(q, 16) && AllDigits(p + q, 16)
    ensures Value(p + q, 16) >= Value(p, 16) + Value(q, 16)
  {
    if q == "" {
      assert p + q == p;
    } else {
      var n := |q| - 1;
      assert (p + q)[..|p + q|-1] == p + q[..n] && (p + q)[|p + q|-1] == q[n];
      MoreDigits(p, q[..n]);
    }
  }

  lemma HexadecimalReadRight(h: string)
    requires h != "" && AllDigits(h, 16)
    ensures ParseInt(h, 10) == Some(Value(h, 16)) <==> AllDigits(h[|h|-1..], 10) && OneDigit(h)
  {
    var p := Leading(h, 10);
    if p == h {
      DecimalBelow(h);
      assert h[|h|-1..][0] == h[|h|-1];
    } else {
      LetterAhead(h, p);
    }
  }

  /** A hexadecimal number is cut before its first letter, and so read as a smaller one. */
  lemma LetterAhead(h: string, p: string)
    requires AllDigits(h, 16) && p < h && AllDigits(p, 10) && Digit(h[|p|], 10) == None
    ensures Value(p, 10) < Value(h, 16) && !(AllDigits(h[|h|-1..], 10) && OneDigit(h))
  {
    hide Value;
    var q := h[|p|..];
    assert h == p + q && q[0] == h[|p|];
    assert AllDigits(p, 16) && AllDigits(q, 16);
    MoreDigits(p, q);
    AllNoughts(q, 16);
    DecimalBelow(p);
    if |p| == |h| - 1 {
      assert h[|h|-1..][0] == q[0];
    }
  }

  /** Of two numbers that differ in the first digit only, references give the same, which neither means. */
  lemma FirstDigitIgnored(chars: nat -> char)
    ensures Unescaped("&#65;", CharacterOf(chars)) == Unescaped("&#75;", CharacterOf(chars)) == [chars(5)]
    ensures IsReference("65") && NumberMeant("65") == 65 && IsReference("75") && NumberMeant("75") == 75
  {
    hide Unescaped;
    assert "65"[..1] == "6" && "75"[..1] == "7" && "6"[..0] == "" && "7"[..0] == "";
    assert Value("6", 10) == 6 && Value("7", 10) == 7;
    assert "65"[1..] == "5" && "75"[1..] == "5" && "5"[1..] == "" && "5"[..0] == "";
    assert Leading("5", 10) == "5";
    ReferenceReadRight("65", chars);
    ReferenceReadRight("75", chars);
    assert "&#" + "65" + ";" == "&#65;" && "&#" + "75" + ";" == "&#75;";
  }

  /** The hexadecimal form of a letter gets the character of the decimal number of the same digits. */
  lemma HexadecimalReadAsDecimal(chars: nat -> char)
    ensures Unescaped("&#x41;", CharacterOf(chars)) == [chars(41)]
    ensures IsReference("x41") && NumberMeant("x41") == 65
  {
    hide Unescaped;
    assert "x41"[1..] == "41" && "41"[..1] == "4" && "4"[..0] == "" && "41"[1..] == "1" && "1"[1..] == "";
    assert Value("4", 16) == 4 && Value("4", 10) == 4;
    assert Value("41", 16) == 65 && Value("41", 10) == 41;
    assert Leading("1", 10) == "1";
    assert Leading("41", 10) == "41";
    assert !AllDigits("x41", 10) by {
      assert "x41"[0] == 'x';
    }
    ReferenceReadRight("x41", chars);
    assert "&#" + "x41" + ";" == "&#x41;";
  }
}
