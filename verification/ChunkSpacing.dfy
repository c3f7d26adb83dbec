/** The non-breaking spaces put into escaped chunks of source (GooglePrettify.js). */
module ChunkSpacing {
  import opened HtmlEscaping

  const ESCAPED: set<Symbol> := {Plain('&'), Plain('<'), Plain('>')}

  predicate IsBreak(c: char) {
    c == '\r' || c == '\n'
  }

  /** What a multi-line regular expression takes for the end of a line. */
  predicate IsTerminator(c: char) {
    IsBreak(c) || c == '\U{2028}' || c == '\U{2029}'
  }

  /** `s.replace(/([\r\n ]) /g, '$1&nbsp;')`. */
  function AdjacentSpaces(s: string): string {
    if |s| < 2 then s
    else if (IsBreak(s[0]) || s[0] == ' ') && s[1] == ' ' then [s[0]] + "&nbsp;" + AdjacentSpaces(s[2..])
    else [s[0]] + AdjacentSpaces(s[1..])
  }

  /** `s.replace(/(^| ) /gm, '$1&nbsp;')`, from a position that may start a line. */
  function StartOrSpaces(s: string, lineStart: bool): string {
    if s == "" then ""
    else if lineStart && s[0] == ' ' then "&nbsp;" + StartOrSpaces(s[1..], false)
    else if |s| >= 2 && s[0] == ' ' && s[1] == ' ' then " &nbsp;" + StartOrSpaces(s[2..], false)
    else [s[0]] + StartOrSpaces(s[1..], IsTerminator(s[0]))
  }

  function Presented(chunk: string, lastWasSpace: bool): string {
    if lastWasSpace then StartOrSpaces(chunk, true) else AdjacentSpaces(chunk)
  }

  /** `/[ \r\n]$/.test(s)`. */
  predicate EndsWithSpace(s: string) {
    s != "" && (s[|s|-1] == ' ' || IsBreak(s[|s|-1]))
  }

  // ---------- which spaces become hard ----------

  /** What stands before a character: the start of a line, a plain space, or anything else. */
  datatype Before = LineStart | Space | Other

  function Next(before: Before, c: char, wide: bool): Before {
    if c == ' ' then (if before == Other then Space else Other)
    else if IsBreak(c) || (wide && IsTerminator(c)) then LineStart
    else Other
  }

  /** The text with a hard space for every space after a line start or a plain space. */
  function Spaced(text: string, before: Before, wide: bool): seq<Symbol> {
    if text == "" then []
    else
      [if text[0] == ' ' && before != Other then Hard else Plain(text[0])]
      + Spaced(text[1..], Next(before, text[0], wide), wide)
  }

  lemma {:induction false} SpacedKeepsText(text: string, before: Before, wide: bool)
    ensures Chars(Spaced(text, before, wide)) == text
  {
    if text != "" {
      SpacedKeepsText(text[1..], Next(before, text[0], wide), wide);
      var t := Spaced(text, before, wide);
      assert t[1..] == Spaced(text[1..], Next(before, text[0], wide), wide);
      assert text == [text[0]] + text[1..];
    }
  }

  lemma LiftedParts(text: string)
    requires text != ""
    ensures Coded(Lifted(text), ESCAPED) == Token(Plain(text[0]), ESCAPED) + Coded(Lifted(text[1..]), ESCAPED)
  {
    assert Lifted(text)[1..] == Lifted(text[1..]);
  }

  lemma SpacedParts(text: string, before: Before, wide: bool)
    requires text != ""
    ensures Coded(Spaced(text, before, wide), IN_TEXT) ==
      (if text[0] == ' ' && before != Other then "&nbsp;" else Token(Plain(text[0]), ESCAPED))
      + Coded(Spaced(text[1..], Next(before, text[0], wide), wide), IN_TEXT)
  {
    var t := Spaced(text, before, wide);
    assert t[1..] == Spaced(text[1..], Next(before, text[0], wide), wide);
    assert Coded(t, IN_TEXT) == Token(t[0], IN_TEXT) + Coded(t[1..], IN_TEXT);
  }

  /** A token of a character that is neither space nor line end has no such characters. */
  lemma TokenWithoutSpaces(c: char)
    ensures Token(Plain(c), ESCAPED) != ""
    ensures c in Token(Plain(c), ESCAPED)[..1] || Token(Plain(c), ESCAPED)[0] == '&'
    ensures c == ' ' || IsTerminator(c) ==> Token(Plain(c), ESCAPED) == [c]
    ensures c != ' ' && !IsTerminator(c) ==>
      forall j :: 0 <= j < |Token(Plain(c), ESCAPED)| ==>
        Token(Plain(c), ESCAPED)[j] != ' ' && !IsTerminator(Token(Plain(c), ESCAPED)[j])
  {
  }

  lemma {:induction false} AdjacentCopies(token: string, rest: string)
    requires forall j :: 0 <= j < |token| ==> token[j] != ' ' && !IsBreak(token[j])
    ensures AdjacentSpaces(token + rest) == token + AdjacentSpaces(rest)
  {
    if token == "" {
      assert token + rest == rest;
    } else {
      AdjacentCopies(token[1..], rest);
      assert (token + rest)[1..] == token[1..] + rest;
      assert token == [token[0]] + token[1..];
    }
  }

  lemma {:induction false} StartCopies(token: string, rest: string, lineStart: bool)
    requires token != "" && forall j :: 0 <= j < |token| ==> token[j] != ' ' && !IsTerminator(token[j])
    ensures StartOrSpaces(token + rest, lineStart) == token + StartOrSpaces(rest, false)
  {
    assert (token + rest)[1..] == token[1..] + rest;
    if |token| == 1 {
      assert token[1..] + rest == rest && token == [token[0]];
    } else {
      StartCopies(token[1..], rest, false);
      assert token == [token[0]] + token[1..];
    }
  }

  /** What follows a space or a line end, when spaces are hardened after them. */
  lemma {:induction false} AfterSpace(p: char, text: string)
    requires p == ' ' || IsBreak(p)
    ensures AdjacentSpaces([p] + Coded(Lifted(text), ESCAPED)) ==
      [p] + Coded(Spaced(text, if p == ' ' then Space else LineStart, false), IN_TEXT)
    decreases |text|, 1
  {
    hide Coded, Token, Lifted, Spaced;
    var before := if p == ' ' then Space else LineStart;
    if text == "" {
      NothingCoded(before, false);
    } else {
      var s := [p] + Coded(Lifted(text), ESCAPED);
      var rest := Coded(Lifted(text[1..]), ESCAPED);
      LiftedParts(text);
      SpacedParts(text, before, false);
      TokenWithoutSpaces(text[0]);
      if text[0] == ' ' {
        assert s[2..] == rest;
        AdjacentIsSpaced(text[1..]);
      } else {
        assert s[1..] == Coded(Lifted(text), ESCAPED) && s[1] == Token(Plain(text[0]), ESCAPED)[0] != ' ';
        AdjacentIsSpaced(text);
        SpacedParts(text, Other, false);
      }
    }
  }

  lemma NothingCoded(before: Before, wide: bool)
    ensures Coded(Lifted(""), ESCAPED) == "" && Coded(Spaced("", before, wide), IN_TEXT) == ""
  {
  }

  /** After something else than a space, the replacement hardens the spaces of the escaped text. */
  lemma {:induction false} AdjacentIsSpaced(text: string)
    ensures AdjacentSpaces(Coded(Lifted(text), ESCAPED)) == Coded(Spaced(text, Other, false), IN_TEXT)
    decreases |text|, 0
  {
    hide Coded, Token, Lifted, Spaced;
    if text == "" {
      NothingCoded(Other, false);
    } else {
      LiftedParts(text);
      SpacedParts(text, Other, false);
      TokenWithoutSpaces(text[0]);
      if text[0] == ' ' || IsBreak(text[0]) {
        AfterSpace(text[0], text[1..]);
      } else {
        AdjacentIsSpaced(text[1..]);
        if IsTerminator(text[0]) {
          AdjacentCopies([text[0]], Coded(Lifted(text[1..]), ESCAPED));
        } else {
          AdjacentCopies(Token(Plain(text[0]), ESCAPED), Coded(Lifted(text[1..]), ESCAPED));
        }
      }
    }
  }

  lemma {:induction false} StartAfterSpace(text: string)
    ensures StartOrSpaces(" " + Coded(Lifted(text), ESCAPED), false) == " " + Coded(Spaced(text, Space, true), IN_TEXT)
    decreases |text|, 1
  {
    hide Coded, Token, Lifted, Spaced;
    var s := " " + Coded(Lifted(text), ESCAPED);
    assert s[1..] == Coded(Lifted(text), ESCAPED);
    if text == "" {
      NothingCoded(Space, true);
    } else {
      LiftedParts(text);
      SpacedParts(text, Space, true);
      TokenWithoutSpaces(text[0]);
      if text[0] == ' ' {
        assert s[2..] == Coded(Lifted(text[1..]), ESCAPED);
        StartIsSpaced(text[1..], false);
      } else {
        assert s[1] == Token(Plain(text[0]), ESCAPED)[0] != ' ';
        StartIsSpaced(text, false);
        SpacedParts(text, Other, true);
      }
    }
  }

  /** After a space, or at the start, the replacement hardens leading spaces as well. */
  lemma {:induction false} StartIsSpaced(text: string, lineStart: bool)
    ensures StartOrSpaces(Coded(Lifted(text), ESCAPED), lineStart) ==
      Coded(Spaced(text, if lineStart then LineStart else Other, true), IN_TEXT)
    decreases |text|, 0
  {
    hide Coded, Token, Lifted, Spaced;
    var before := if lineStart then LineStart else Other;
    if text == "" {
      NothingCoded(before, true);
    } else {
      var s, rest := Coded(Lifted(text), ESCAPED), Coded(Lifted(text[1..]), ESCAPED);
      LiftedParts(text);
      SpacedParts(text, before, true);
      TokenWithoutSpaces(text[0]);
      if text[0] == ' ' {
        assert s[1..] == rest;
        if lineStart {
          StartIsSpaced(text[1..], false);
        } else {
          StartAfterSpace(text[1..]);
        }
      } else if IsTerminator(text[0]) {
        assert s[1..] == rest;
        StartIsSpaced(text[1..], true);
      } else {
        StartCopies(Token(Plain(text[0]), ESCAPED), rest, lineStart);
        StartIsSpaced(text[1..], false);
      }
    }
  }

  function SpacedChunk(text: string, lastWasSpace: bool): seq<Symbol> {
    if lastWasSpace then Spaced(text, LineStart, true) else Spaced(text, Other, false)
  }

  /**
    A text of which exactly these spaces are hard: the first character if `first`, and every other space
    that follows a plain space, a line end or, in a `wide` sense, another line terminator.
   */
  ghost predicate IsHardened(t: seq<Symbol>, text: string, first: bool, wide: bool) {
    && |t| == |text|
    && (t != [] ==> t[0] == if text[0] == ' ' && first then Hard else Plain(text[0]))
    && forall i :: 0 < i < |t| ==> IsHardenedAt(t, text, i, wide)
  }

  ghost predicate IsHardenedAt(t: seq<Symbol>, text: string, i: nat, wide: bool)
    requires 0 < i < |t| == |text|
  {
    t[i] == if text[i] == ' ' && HardensNext(t[i-1], wide) then Hard else Plain(text[i])
  }

  predicate HardensNext(x: Symbol, wide: bool) {
    x.Plain? && (x.c == ' ' || x.c == '\r' || x.c == '\n' || (wide && x.c in {'\U{2028}', '\U{2029}'}))
  }

  lemma {:induction false} SpacedIsHardened(text: string, before: Before, wide: bool)
    ensures IsHardened(Spaced(text, before, wide), text, before != Other, wide)
  {
    if text != "" {
      var next := Next(before, text[0], wide);
      SpacedIsHardened(text[1..], next, wide);
      var t, rest := Spaced(text, before, wide), Spaced(text[1..], next, wide);
      assert t[1..] == rest;
      assert next != Other <==> HardensNext(t[0], wide);
      forall i | 0 < i < |t|
        ensures IsHardenedAt(t, text, i, wide)
      {
        assert t[i] == rest[i-1] && text[i] == text[1..][i-1];
        assert i > 1 ==> t[i-1] == rest[i-2] && IsHardenedAt(rest, text[1..], i - 1, wide);
      }
    }
  }

  /**
    What is done to the escaped text of a chunk is to write spaces as hard ones, and only those that would
    collapse: the first after a space or a line end, and those after a plain space or a line end.
   */
  lemma PresentedIsSpaced(text: string, lastWasSpace: bool)
    ensures Presented(TextToHtml(text), lastWasSpace) == Coded(SpacedChunk(text, lastWasSpace), IN_TEXT)
    ensures Chars(SpacedChunk(text, lastWasSpace)) == text
    ensures IsHardened(SpacedChunk(text, lastWasSpace), text, lastWasSpace, lastWasSpace)
  {
    SpacedIsHardened(text, if lastWasSpace then LineStart else Other, lastWasSpace);
    TextIsCoded(text);
    if lastWasSpace {
      StartIsSpaced(text, true);
      SpacedKeepsText(text, LineStart, true);
    } else {
      AdjacentIsSpaced(text);
      SpacedKeepsText(text, Other, false);
    }
  }

  // ---------- no white space collapses ----------

  predicate IsSpaceSymbol(x: Symbol) {
    x == Plain(' ') || x == Plain('\r') || x == Plain('\n')
  }

  /** No plain space starts the text, or follows a plain space or a line end, where browsers drop it. */
  ghost predicate NothingCollapses(t: seq<Symbol>, lastWasSpace: bool) {
    && (t != [] && t[0] == Plain(' ') ==> !lastWasSpace)
    && forall i :: 0 < i < |t| && t[i] == Plain(' ') ==> !IsSpaceSymbol(t[i-1])
  }

  lemma {:induction false} SpacedNeverCollapses(text: string, before: Before, wide: bool)
    ensures NothingCollapses(Spaced(text, before, wide), before != Other)
  {
    if text != "" {
      var next := Next(before, text[0], wide);
      SpacedNeverCollapses(text[1..], next, wide);
      var t, rest := Spaced(text, before, wide), Spaced(text[1..], next, wide);
      assert t[1..] == rest;
      forall i | 0 < i < |t| && t[i] == Plain(' ')
        ensures !IsSpaceSymbol(t[i-1])
      {
        assert rest[i-1] == t[i];
        assert i > 1 ==> rest[i-2] == t[i-1];
      }
    }
  }

  predicate LastIsSpace(t: seq<Symbol>) {
    t != [] && IsSpaceSymbol(t[|t|-1])
  }

  /** A space is hard only at the start, or after a plain space, a line end or another line terminator. */
  ghost predicate HardWhereNeeded(t: seq<Symbol>, first: bool) {
    && (t != [] && t[0] == Hard ==> first)
    && forall i :: 0 < i < |t| && t[i] == Hard ==> HardensNext(t[i-1], true)
  }

  lemma HardenedWhereNeeded(t: seq<Symbol>, text: string, first: bool, wide: bool)
    requires IsHardened(t, text, first, wide)
    ensures HardWhereNeeded(t, first)
  {
    forall i | 0 < i < |t| && t[i] == Hard
      ensures HardensNext(t[i-1], true)
    {
      assert IsHardenedAt(t, text, i, wide);
    }
  }

  lemma HardConcat(a: seq<Symbol>, b: seq<Symbol>)
    requires HardWhereNeeded(a, true) && HardWhereNeeded(b, a == [] || LastIsSpace(a))
    ensures HardWhereNeeded(a + b, true)
  {
    var t := a + b;
    forall i | 0 < i < |t| && t[i] == Hard
      ensures HardensNext(t[i-1], true)
    {
      if i < |a| {
        assert t[i] == a[i] && t[i-1] == a[i-1];
      } else {
        assert t[i] == b[i-|a|];
        assert t[i-1] == if i == |a| then a[i-1] else b[i-|a|-1];
      }
    }
  }

  lemma CollapseConcat(a: seq<Symbol>, b: seq<Symbol>)
    requires NothingCollapses(a, true) && NothingCollapses(b, a == [] || LastIsSpace(a))
    ensures NothingCollapses(a + b, true)
  {
    var t := a + b;
    forall i | 0 < i < |t| && t[i] == Plain(' ')
      ensures !IsSpaceSymbol(t[i-1])
    {
      assert i < |a| ==> t[i] == a[i] && t[i-1] == a[i-1];
      assert i > |a| ==> t[i] == b[i-|a|] && t[i-1] == b[i-|a|-1];
    }
  }

  /** A written text ends with a space or a line end exactly when its last symbol is one. */
  lemma EndsAsLast(t: seq<Symbol>)
    ensures EndsWithSpace(Coded(t, IN_TEXT)) == LastIsSpace(t)
  {
    if t != [] {
      var n := |t| - 1;
      assert t == t[..n] + [t[n]];
      CodedConcat(t[..n], [t[n]], IN_TEXT);
      assert [t[n]][1..] == [];
      assert Coded([t[n]], IN_TEXT) == Token(t[n], IN_TEXT);
      TokenEnds(t[n]);
    }
  }

  lemma TokenEnds(x: Symbol)
    ensures Token(x, IN_TEXT) != "" && EndsWithSpace(Token(x, IN_TEXT)) == IsSpaceSymbol(x)
  {
  }
}
