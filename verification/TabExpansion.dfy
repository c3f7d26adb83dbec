/** Expanding tabs in text that arrives in chunks (GooglePrettify.js). */
module TabExpansion {

  function Spaces(n: nat): string {
    seq(n, _ => ' ')
  }

  /**
    From column `col`, the spaces that lead to the next multiple of the tab width. With a width of zero the
    remainder is not a number, and there are none.
   */
  function Padding(col: nat, width: nat): (n: nat)
    ensures width > 0 ==> 0 < n <= width
  {
    if width == 0 then 0 else width - col % width
  }

  function ExpandedChar(ch: char, col: nat, width: nat): string
  {
    if ch == '\t' then Spaces(Padding(col, width)) else [ch]
  }

  /** The column after one character. */
  function NextColumn(ch: char, col: nat, width: nat): nat
  {
    if ch == '\t' then col + Padding(col, width) else if ch == '\n' then 0 else col + 1
  }

  function Expanded(text: string, col: nat, width: nat): string
  {
    if text == "" then ""
    else ExpandedChar(text[0], col, width) + Expanded(text[1..], NextColumn(text[0], col, width), width)
  }

  /** The column after the text. */
  function EndColumn(text: string, col: nat, width: nat): nat
  {
    if text == "" then col else EndColumn(text[1..], NextColumn(text[0], col, width), width)
  }

  ghost predicate AreSpaces(s: string) {
    forall i :: 0 <= i < |s| ==> s[i] == ' '
  }

  /** `n` columns lead from column `col` to the next tab stop; without tab stops, none do. */
  ghost predicate LeadsToStop(col: nat, n: nat, width: nat) {
    if width == 0 then n == 0 else 0 < n <= width && (col + n) % width == 0
  }

  /**
    From column `col` to column `end`: all of the text but its tabs, in order and unchanged, and for each tab
    the spaces to the next tab stop.
   */
  ghost predicate IsExpansion(text: string, out: string, col: nat, end: nat, width: nat)
    decreases |text|
  {
    if text == "" then out == "" && end == col
    else if text[0] == '\t' then
      exists n: nat :: LeadsToStop(col, n, width) && n <= |out| && AreSpaces(out[..n])
        && IsExpansion(text[1..], out[n..], col + n, end, width)
    else
      && out != "" && out[0] == text[0]
      && IsExpansion(text[1..], out[1..], if text[0] == '\n' then 0 else col + 1, end, width)
  }

  /** The expansion has the spaces that lead to each tab stop, and nothing else is changed. */
  lemma {:induction false} ExpandedIsExpansion(text: string, col: nat, width: nat)
    ensures IsExpansion(text, Expanded(text, col, width), col, EndColumn(text, col, width), width)
    decreases |text|
  {
    hide Expanded, EndColumn;
    if text == "" {
      ExpandedNothing(col, width);
    } else {
      var out, next := Expanded(text, col, width), NextColumn(text[0], col, width);
      ExpandedFirst(text, col, width);
      ExpandedIsExpansion(text[1..], next, width);
      if text[0] == '\t' {
        var n := Padding(col, width);
        PaddingLeads(col, width);
        assert out[..n] == Spaces(n) && out[n..] == Expanded(text[1..], next, width);
      } else {
        assert out[1..] == Expanded(text[1..], next, width);
      }
    }
  }

  lemma ExpandedNothing(col: nat, width: nat)
    ensures Expanded("", col, width) == "" && EndColumn("", col, width) == col
  {
  }

  lemma PaddingLeads(col: nat, width: nat)
    ensures LeadsToStop(col, Padding(col, width), width)
  {
    if width > 0 {
      ModShift(col, Padding(col, width), width);
    }
  }

  /** A text without tabs comes out unchanged, whatever its column. */
  lemma {:induction false} NoTabsUnchanged(text: string, col: nat, width: nat)
    requires '\t' !in text
    ensures Expanded(text, col, width) == text
    decreases |text|
  {
    if text != "" {
      NoTabsUnchanged(text[1..], NextColumn(text[0], col, width), width);
    }
  }

  class TabExpander {
    const tabWidth: nat
    var charInLine: nat

    constructor (tabWidth: nat)
      ensures this.tabWidth == tabWidth && charInLine == 0
    {
      this.tabWidth, charInLine := tabWidth, 0;
    }

    /** Expands one more chunk, from the column where the last one ended. */
    method Expand(plainText: string) returns (text: string)
      modifies this
      ensures text == Expanded(plainText, old(charInLine), tabWidth)
      ensures charInLine == EndColumn(plainText, old(charInLine), tabWidth)
      ensures IsExpansion(plainText, text, old(charInLine), charInLine, tabWidth)
    {
      hide IsExpansion, Expanded, EndColumn;
      ExpandedNothing(charInLine, tabWidth);
      ExpandedIsExpansion(plainText, charInLine, tabWidth);
      ghost var start := charInLine;
      var out, hasOut := "", false;
      var pos := 0;
      for i := 0 to |plainText|
        invariant 0 <= pos <= i
        invariant charInLine == EndColumn(plainText[..i], start, tabWidth)
        invariant out + plainText[pos..i] == Expanded(plainText[..i], start, tabWidth)
        invariant !hasOut ==> out == "" && pos == 0
      {
        var ch := plainText[i];
        assert plainText[..i+1] == plainText[..i] + [ch];
        ExpandedConcat(plainText[..i], [ch], start, tabWidth);
        OneStep(ch, charInLine, tabWidth);
        match ch {
          case '\t' =>
            hasOut := true;
            out := out + plainText[pos..i];
            var nSpaces := Padding(charInLine, tabWidth);
            charInLine := charInLine + nSpaces;
            var padding := PushSpaces(nSpaces);
            out := out + padding;
            pos := i + 1;
          case '\n' =>
            charInLine := 0;
          case _ =>
            charInLine := charInLine + 1;
        }
      }
      assert plainText[..|plainText|] == plainText;
      if !hasOut {
        return plainText;
      }
      text := out + plainText[pos..];
    }
  }

  const SPACES := "                "

  /** The inner loop of the expander: pushes spaces from a buffer of sixteen. */
  method PushSpaces(n: nat) returns (out: string)
    ensures |out| == n && AreSpaces(out)
    ensures out == Spaces(n)
  {
    out := "";
    var nSpaces: int := n;
    while nSpaces >= 0
      invariant nSpaces >= -16
      invariant out == Spaces(if nSpaces >= 0 then n - nSpaces else n)
      decreases nSpaces + 16
    {
      out := out + SPACES[..if nSpaces < |SPACES| then nSpaces else |SPACES|];
      nSpaces := nSpaces - |SPACES|;
    }
  }

  lemma OneStep(ch: char, col: nat, width: nat)
    ensures Expanded([ch], col, width) == ExpandedChar(ch, col, width)
    ensures EndColumn([ch], col, width) == NextColumn(ch, col, width)
  {
    assert [ch][1..] == "";
  }

  lemma {:induction false} EndColumnConcat(a: string, b: string, col: nat, width: nat)
    ensures EndColumn(a + b, col, width) == EndColumn(b, EndColumn(a, col, width), width)
    decreases |a|
  {
    if a == "" {
      assert a + b == b;
    } else {
      EndColumnConcat(a[1..], b, NextColumn(a[0], col, width), width);
      assert (a + b)[0] == a[0] && (a + b)[1..] == a[1..] + b;
    }
  }

  /** Expanding chunk after chunk is expanding the whole text. */
  lemma {:induction false} ExpandedConcat(a: string, b: string, col: nat, width: nat)
    ensures Expanded(a + b, col, width) == Expanded(a, col, width) + Expanded(b, EndColumn(a, col, width), width)
    ensures EndColumn(a + b, col, width) == EndColumn(b, EndColumn(a, col, width), width)
    decreases |a|
  {
    hide ExpandedChar, NextColumn;
    EndColumnConcat(a, b, col, width);
    if a == "" {
      assert a + b == b;
    } else {
      ExpandedConcat(a[1..], b, NextColumn(a[0], col, width), width);
      assert (a + b)[0] == a[0] && (a + b)[1..] == a[1..] + b;
    }
  }

  lemma {:induction false} NoTabsLeft(text: string, col: nat, width: nat)
    ensures '\t' !in Expanded(text, col, width)
    decreases |text|
  {
    if text != "" {
      NoTabsLeft(text[1..], NextColumn(text[0], col, width), width);
    }
  }

  /** The column at the end of a text without tabs, shown from column `col` on. */
  function ShownColumn(text: string, col: nat): nat {
    if text == "" then col
    else if text[|text|-1] == '\n' then 0
    else ShownColumn(text[..|text|-1], col) + 1
  }

  lemma {:induction false} ShownColumnConcat(a: string, b: string, col: nat)
    ensures ShownColumn(a + b, col) == ShownColumn(b, ShownColumn(a, col))
  {
    if b == "" {
      assert a + b == a;
    } else {
      ShownColumnConcat(a, b[..|b|-1], col);
      assert (a + b)[..|a + b|-1] == a + b[..|b|-1];
    }
  }

  lemma {:induction false} ShownSpaces(n: nat, col: nat)
    ensures ShownColumn(Spaces(n), col) == col + n
  {
    if n > 0 {
      ShownSpaces(n - 1, col);
      assert Spaces(n)[..n-1] == Spaces(n - 1);
    }
  }

  /** The expander's column is where the expanded text really ends. */
  lemma {:induction false} ColumnIsShown(text: string, col: nat, width: nat)
    ensures ShownColumn(Expanded(text, col, width), col) == EndColumn(text, col, width)
    decreases |text|
  {
    if text != "" {
      hide Expanded, EndColumn, ShownColumn, ExpandedChar, NextColumn;
      var next := NextColumn(text[0], col, width);
      ColumnIsShown(text[1..], next, width);
      ExpandedFirst(text, col, width);
      ShownColumnConcat(ExpandedChar(text[0], col, width), Expanded(text[1..], next, width), col);
      CharIsShown(text[0], col, width);
    }
  }

  lemma ExpandedFirst(text: string, col: nat, width: nat)
    requires text != ""
    ensures var next := NextColumn(text[0], col, width);
      && Expanded(text, col, width) == ExpandedChar(text[0], col, width) + Expanded(text[1..], next, width)
      && EndColumn(text, col, width) == EndColumn(text[1..], next, width)
  {
  }

  lemma CharIsShown(ch: char, col: nat, width: nat)
    ensures ShownColumn(ExpandedChar(ch, col, width), col) == NextColumn(ch, col, width)
  {
    if ch == '\t' {
      ShownSpaces(Padding(col, width), col);
    } else {
      assert [ch][..0] == "";
    }
  }

  /** A tab leads to the next tab stop, and no further. */
  lemma TabReachesNextStop(text: string, col: nat, width: nat)
    requires width > 0
    ensures var before, after := EndColumn(text, col, width), EndColumn(text + "\t", col, width);
      && before < after && after % width == 0
      && ShownColumn(Expanded(text + "\t", col, width), col) == after
      && forall stop :: before < stop < after ==> stop % width != 0
  {
    hide EndColumn, Expanded, ShownColumn;
    var before := EndColumn(text, col, width);
    ExpandedConcat(text, "\t", col, width);
    OneStep('\t', before, width);
    ColumnIsShown(text + "\t", col, width);
    forall stop | before < stop <= before + Padding(before, width)
      ensures stop % width == 0 <==> stop == before + Padding(before, width)
    {
      ModShift(before, stop - before, width);
    }
  }

  lemma ModShift(x: nat, d: nat, width: nat)
    requires width > 0 && x % width + d <= width
    ensures (x + d) % width == if x % width + d == width then 0 else x % width + d
  {
    var q, r := x / width, x % width;
    assert x == q * width + r;
    if r + d == width {
      assert x + d == (q + 1) * width + 0;
      DivisionUnique(q + 1, 0, width);
    } else {
      DivisionUnique(q, r + d, width);
    }
  }

  lemma DivisionUnique(q: nat, r: nat, width: nat)
    requires r < width
    ensures (q * width + r) % width == r
  {
    var m := q * width + r;
    var q', r' := m / width, m % width;
    assert q' * width + r' == q * width + r;
    assert (q' - q) * width == q' * width - q * width;
    assert (q - q') * width == q * width - q' * width;
    if q' > q {
      MulAtLeast(q' - q, width);
    } else if q' < q {
      MulAtLeast(q - q', width);
    }
  }

  lemma MulAtLeast(k: nat, width: nat)
    requires k >= 1
    ensures k * width >= width
  {
  }
}
