/** Line ends of escaped chunks, written as line breaks of the page (GooglePrettify.js). */
module LineBreaks {
  import opened HtmlEscaping
  import opened TabExpansion

  /** The line break, prefixed for the browser that collapses adjacent ones. */
  function LineBreakHtml(isIE6: bool): string {
    if isIE6 then "&nbsp;<br />" else "<br />"
  }

  /** `s.replace(/\r\n?|\n/g, lineBreak)`. */
  function Broken(s: string, lineBreak: string): string {
    if s == "" then ""
    else if "\r\n" <= s then lineBreak + Broken(s[2..], lineBreak)
    else if s[0] == '\r' || s[0] == '\n' then lineBreak + Broken(s[1..], lineBreak)
    else [s[0]] + Broken(s[1..], lineBreak)
  }

  /** A line end of two characters that is cut in two where the strings meet. */
  predicate CutBetween(a: string, b: string) {
    a != "" && b != "" && a[|a|-1] == '\r' && b[0] == '\n'
  }

  /** The meeting strings are broken one by one, save that a cut line end is broken once. */
  lemma {:induction false} BrokenConcat(a: string, b: string, lineBreak: string)
    ensures Broken(a + b, lineBreak) ==
      Broken(a, lineBreak) + Broken(if CutBetween(a, b) then b[1..] else b, lineBreak)
    decreases |a|
  {
    hide Broken;
    var s := a + b;
    BrokenStep(a, lineBreak);
    BrokenStep(s, lineBreak);
    if a == "" {
      assert s == b;
    } else if a == "\r" {
      assert s[1..] == b;
      assert b != "" ==> s[1] == b[0] && s[2..] == b[1..];
      assert a[1..] == "";
      BrokenStep("", lineBreak);
    } else {
      assert s[0] == a[0] && (|a| > 1 ==> s[1] == a[1]);
      var n := if "\r\n" <= a then 2 else 1;
      assert s[n..] == a[n..] + b;
      BrokenConcat(a[n..], b, lineBreak);
    }
  }

  lemma BrokenStep(s: string, lineBreak: string)
    ensures s == "" ==> Broken(s, lineBreak) == ""
    ensures s != "" && !(s[0] == '\r' && |s| > 1 && s[1] == '\n') ==>
      var first := if s[0] == '\r' || s[0] == '\n' then lineBreak else [s[0]];
      Broken(s, lineBreak) == first + Broken(s[1..], lineBreak)
    ensures "\r\n" <= s ==> Broken(s, lineBreak) == lineBreak + Broken(s[2..], lineBreak)
  {
  }

  predicate HasNoLineEnds(s: string) {
    '\r' !in s && '\n' !in s
  }

  lemma {:induction false} NoLineEndsUnbroken(s: string, lineBreak: string)
    requires HasNoLineEnds(s)
    ensures Broken(s, lineBreak) == s
  {
    hide Broken;
    BrokenStep(s, lineBreak);
    if s != "" {
      NoLineEndsUnbroken(s[1..], lineBreak);
      assert s[0] in s && s == [s[0]] + s[1..];
    }
  }

  /** A line is kept, and its end, of one or of two characters, becomes one line break. */
  lemma LineIsBroken(line: string, end: string, rest: string, lineBreak: string)
    requires HasNoLineEnds(line)
    requires end == "\r\n" || end == "\n" || (end == "\r" && !("\n" <= rest))
    ensures Broken(line + end + rest, lineBreak) == line + lineBreak + Broken(rest, lineBreak)
  {
    hide Broken;
    var s := end + rest;
    assert s[|end|..] == rest;
    assert s[0] == end[0] && (|end| > 1 ==> s[1] == end[1]) && (|end| == 1 && rest != "" ==> s[1] == rest[0]);
    NoLineEndsUnbroken(line, lineBreak);
    assert line != "" ==> line[|line|-1] in line;
    BrokenConcat(line, s, lineBreak);
    BrokenStep(s, lineBreak);
    assert line + end + rest == line + s;
  }

  lemma LineBreakIs()
    ensures LineBreakHtml(false) == "<br />" && LineBreakHtml(true) == "&nbsp;" + LineBreakHtml(false)
  {
  }

  /** Strings broken one by one give the whole broken, with one line break more for a cut line end. */
  lemma BrokenTogether(a: string, b: string, lineBreak: string)
    ensures if CutBetween(a, b)
            then |Broken(a, lineBreak) + Broken(b, lineBreak)| == |Broken(a + b, lineBreak)| + |lineBreak|
            else Broken(a + b, lineBreak) == Broken(a, lineBreak) + Broken(b, lineBreak)
  {
    BrokenConcat(a, b, lineBreak);
  }

  lemma {:induction false} NoLineEndsLeft(s: string, lineBreak: string)
    requires '\r' !in lineBreak && '\n' !in lineBreak
    ensures '\r' !in Broken(s, lineBreak) && '\n' !in Broken(s, lineBreak)
    decreases |s|
  {
    if "\r\n" <= s {
      NoLineEndsLeft(s[2..], lineBreak);
    } else if s != "" {
      NoLineEndsLeft(s[1..], lineBreak);
    }
  }

  // ---------- line ends of the source are line ends of the page ----------

  /** Writing a text keeps a line end where it is first or last. */
  lemma CodedEnds(t: seq<Symbol>)
    requires t != []
    ensures var coded, chars := Coded(t, IN_TEXT), Chars(t);
      && coded != "" && chars != ""
      && (coded[0] == '\n' <==> chars[0] == '\n')
      && (coded[|coded|-1] == '\r' <==> chars[|chars|-1] == '\r')
  {
    var n := |t| - 1;
    assert t == t[..n] + [t[n]];
    CodedConcat(t[..n], [t[n]], IN_TEXT);
    CharsConcat(t[..n], [t[n]]);
    assert [t[n]][1..] == [];
    assert Coded([t[n]], IN_TEXT) == Token(t[n], IN_TEXT) && Chars([t[n]]) == [t[n].Char()];
    TokenEnds(t[n]);
    TokenEnds(t[0]);
  }

  lemma TokenEnds(x: Symbol)
    ensures var token := Token(x, IN_TEXT);
      token != "" && (token[0] == '\n' <==> x.Char() == '\n') && (token[|token|-1] == '\r' <==> x.Char() == '\r')
  {
  }

  /** Expanding tabs keeps it too. */
  lemma ExpandedEnds(text: string, col: nat, width: nat)
    requires width > 0 && text != ""
    ensures var e := Expanded(text, col, width);
      && e != "" && (e[0] == '\n' <==> text[0] == '\n')
      && (e[|e|-1] == '\r' <==> text[|text|-1] == '\r')
  {
    hide Expanded, ExpandedChar, EndColumn, NextColumn;
    var n := |text| - 1;
    var last := EndColumn(text[..n], col, width);
    assert text == text[..n] + [text[n]];
    ExpandedConcat(text[..n], [text[n]], col, width);
    OneStep(text[n], last, width);
    CharEnds(text[n], last, width);
    ExpandedFirst(text, col, width);
    CharEnds(text[0], col, width);
  }

  lemma CharEnds(ch: char, col: nat, width: nat)
    requires width > 0
    ensures var e := ExpandedChar(ch, col, width);
      && e != "" && (e[0] == '\n' <==> ch == '\n')
      && (e[|e|-1] == '\r' <==> ch == '\r')
  {
  }

  /** A line end is cut in the page where it is cut in the source. */
  lemma CutInSource(a: string, b: string, shown: seq<Symbol>, chunk: seq<Symbol>, width: nat)
    requires width > 0 && b != ""
    requires Chars(shown) == Expanded(a, 0, width)
    requires Chars(chunk) == Expanded(b, EndColumn(a, 0, width), width)
    ensures CutBetween(Coded(shown, IN_TEXT), Coded(chunk, IN_TEXT)) == CutBetween(a, b)
    ensures chunk != []
  {
    hide Expanded, EndColumn, Coded, Chars;
    NothingWritten();
    NothingExpanded(width);
    ExpandedEnds(b, EndColumn(a, 0, width), width);
    CodedEnds(chunk);
    if a != "" {
      ExpandedEnds(a, 0, width);
      CodedEnds(shown);
    } else if shown != [] {
      CodedEnds(shown);
    }
  }

  lemma NothingWritten()
    ensures Chars([]) == "" && Coded([], IN_TEXT) == ""
  {
  }

  lemma NothingExpanded(width: nat)
    requires width > 0
    ensures Expanded("", 0, width) == ""
  {
  }
}
