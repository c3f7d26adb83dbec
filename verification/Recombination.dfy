/** Putting the tags of the page and the style spans back around the source (GooglePrettify.js). */
module Recombination {
  import opened ChunkSpacing
  import opened HtmlEscaping
  import opened LineBreaks
  import opened TabExpansion

  /** A chunk of raw html and its position in the source. */
  datatype Tag = Tag(pos: nat, html: string)

  /** A style and the position in the source from which it holds; the empty style is no style. */
  datatype Decoration = Decoration(pos: nat, style: string)

  type TabWidth = w: nat | w > 0 witness 8

  /** A source with its tags and styles, and the settings of the page. */
  datatype Job = Job(source: string, extractedTags: seq<Tag>, decorations: seq<Decoration>,
                     tabWidth: TabWidth, isIE6: bool) {

    function LineBreak(): (html: string)
      ensures html != ""
    {
      LineBreakHtml(isIE6)
    }

    /** Positions lie in the source and ascend. */
    ghost predicate Valid() {
      && (forall i :: 0 <= i < |extractedTags| ==> extractedTags[i].pos <= |source|)
      && (forall i :: 0 <= i < |decorations| ==> decorations[i].pos <= |source|)
      && (forall i, j :: 0 <= i < j < |extractedTags| ==> extractedTags[i].pos <= extractedTags[j].pos)
      && (forall i, j :: 0 <= i < j < |decorations| ==> decorations[i].pos <= decorations[j].pos)
    }

    /** The style of a character: that of the last decoration at or before it. */
    function StyleAt(i: nat): string {
      LastStyle(decorations, i)
    }

    /** A place where a tag stands or a style begins. */
    ghost predicate IsBoundary(p: nat) {
      || (exists j :: 0 <= j < |extractedTags| && extractedTags[j].pos == p)
      || (exists j :: 0 <= j < |decorations| && decorations[j].pos == p)
    }

    /** How often, before `upto`, a tag or style stands between the two characters of a line end. */
    ghost function Cuts(upto: nat): nat
      requires upto <= |source|
    {
      if upto <= 1 then 0 else Cuts(upto - 1) + if CutsAt(upto - 1) then 1 else 0
    }

    ghost predicate CutsAt(p: nat)
      requires p <= |source|
    {
      IsBoundary(p) && CutBetween(source[..p], source[p..])
    }

    /** All tags and decorations consumed lie at or before `at`, all others at it or after it. */
    ghost predicate Consumed(tagPos: nat, decPos: nat, at: nat, style: string) {
      && tagPos <= |extractedTags| && decPos <= |decorations| && at <= |source|
      && style == (if decPos == 0 then "" else decorations[decPos-1].style)
      && (at == 0 || IsBoundary(at))
      && (decPos > 0 ==> decorations[decPos-1].pos <= at)
      && (tagPos > 0 ==> extractedTags[tagPos-1].pos <= at)
      && (forall j :: decPos <= j < |decorations| ==> decorations[j].pos >= at)
      && (forall j :: tagPos <= j < |extractedTags| ==> extractedTags[j].pos >= at)
    }

    /** From the start or a boundary at `at`, one style holds and no other boundary comes before `to`. */
    ghost predicate Uniform(at: nat, to: nat, style: string) {
      && at <= to && (at == 0 || IsBoundary(at))
      && (forall i :: at < i < to ==> !IsBoundary(i))
      && (forall i :: at <= i < to ==> StyleAt(i) == style)
    }

    lemma ToNextBoundary(tagPos: nat, decPos: nat, at: nat, style: string, to: nat)
      requires Valid() && Consumed(tagPos, decPos, at, style) && at <= to
      requires forall j :: decPos <= j < |decorations| ==> decorations[j].pos >= to
      requires forall j :: tagPos <= j < |extractedTags| ==> extractedTags[j].pos >= to
      ensures Uniform(at, to, style)
    {
      forall i | at <= i < to
        ensures StyleAt(i) == style
      {
        LastStyleIs(decorations, decPos, i);
      }
    }

    lemma ConsumeTag(tagPos: nat, decPos: nat, at: nat, style: string)
      requires Valid() && Consumed(tagPos, decPos, at, style) && tagPos < |extractedTags|
      requires decPos < |decorations| ==> extractedTags[tagPos].pos <= decorations[decPos].pos
      ensures Uniform(at, extractedTags[tagPos].pos, style) && extractedTags[tagPos].pos <= |source|
      ensures Consumed(tagPos + 1, decPos, extractedTags[tagPos].pos, style)
    {
      ToNextBoundary(tagPos, decPos, at, style, extractedTags[tagPos].pos);
    }

    lemma ConsumeDecoration(tagPos: nat, decPos: nat, at: nat, style: string)
      requires Valid() && Consumed(tagPos, decPos, at, style) && decPos < |decorations|
      requires tagPos < |extractedTags| ==> decorations[decPos].pos < extractedTags[tagPos].pos
      ensures Uniform(at, decorations[decPos].pos, style) && decorations[decPos].pos <= |source|
      ensures Consumed(tagPos, decPos + 1, decorations[decPos].pos, decorations[decPos].style)
    {
      ToNextBoundary(tagPos, decPos, at, style, decorations[decPos].pos);
    }
  }

  function LastStyle(decorations: seq<Decoration>, i: nat): string {
    if decorations == [] then ""
    else if decorations[|decorations|-1].pos <= i then decorations[|decorations|-1].style
    else LastStyle(decorations[..|decorations|-1], i)
  }

  lemma {:induction false} LastStyleIs(decorations: seq<Decoration>, k: nat, i: nat)
    requires k <= |decorations|
    requires k > 0 ==> decorations[k-1].pos <= i
    requires forall j :: k <= j < |decorations| ==> decorations[j].pos > i
    ensures LastStyle(decorations, i) == if k == 0 then "" else decorations[k-1].style
  {
    if k < |decorations| {
      LastStyleIs(decorations[..|decorations|-1], k, i);
    }
  }

  /** A piece of the page; a piece of text ends at position `end` of the source. */
  datatype Piece = Open(style: string) | Close | Text(end: nat, text: string) | Raw(html: string)

  /** How far the page has been read: position in the source, open span if any, next tag expected. */
  datatype Reader = Reader(pos: nat, open: string, nextTag: nat)

  datatype Reading = Refused | Accepted(reader: Reader)

  /** The text is an expanded stretch of the source, escaped and with line breaks; spaces may be hard. */
  ghost predicate Writes(job: Job, pos: nat, end: nat, text: string)
    requires pos <= end <= |job.source|
  {
    var expanded := Expanded(job.source[pos..end], EndColumn(job.source[..pos], 0, job.tabWidth), job.tabWidth);
    exists t :: Chars(t) == expanded && text == Broken(Coded(t, IN_TEXT), job.LineBreak())
  }

  /**
    A strict reader of pages. It accepts a span only when none is open; text only if it is the stretch of
    the source that goes on where the last text ended, and all of it has the style of the open span; and a
    tag only if it is the next one, at its own position and outside every span.
   */
  ghost function Read(job: Job, r: Reader, piece: Piece): Reading {
    match piece
    case Open(style) => if r.open == "" && style != "" then Accepted(r.(open := style)) else Refused
    case Close => if r.open != "" then Accepted(r.(open := "")) else Refused
    case Text(end, text) =>
      if && r.pos < end <= |job.source| && (forall i :: r.pos <= i < end ==> job.StyleAt(i) == r.open)
         && Writes(job, r.pos, end, text)
      then Accepted(r.(pos := end)) else Refused
    case Raw(html) =>
      if && r.open == "" && r.nextTag < |job.extractedTags|
         && job.extractedTags[r.nextTag] == Tag(r.pos, html)
      then Accepted(r.(nextTag := r.nextTag + 1)) else Refused
  }

  ghost function ReadAll(job: Job, page: seq<Piece>): Reading {
    if page == [] then Accepted(Reader(0, "", 0))
    else
      match ReadAll(job, page[..|page|-1])
      case Refused => Refused
      case Accepted(r) => Read(job, r, page[|page|-1])
  }

  /** The text of a page, without tags and spans. */
  function TextOf(page: seq<Piece>): string {
    if page == [] then ""
    else TextOf(page[..|page|-1]) + if page[|page|-1].Text? then page[|page|-1].text else ""
  }

  lemma ReadOneMore(job: Job, page: seq<Piece>, piece: Piece)
    ensures ReadAll(job, page + [piece]) ==
      if ReadAll(job, page).Refused? then Refused else Read(job, ReadAll(job, page).reader, piece)
    ensures TextOf(page + [piece]) == if piece.Text? then TextOf(page) + piece.text else TextOf(page)
  {
    assert (page + [piece])[..|page|] == page;
  }

  // ---------- what is shown ----------

  /** How far the text has been written, and what the writer remembers of it. */
  datatype Progress = Progress(outputIdx: nat, lastWasSpace: bool, charInLine: nat)

  /**
    The text `shown`, whose characters are the expanded source so far, keeps all its white space, and no
    space is hard without need. Up to line breaks it is what has been written; each line end that was cut has
    been broken once more.
   */
  ghost predicate Shows(job: Job, text: string, shown: seq<Symbol>, p: Progress) {
    && p.outputIdx <= |job.source|
    && Chars(shown) == Expanded(job.source[..p.outputIdx], 0, job.tabWidth)
    && p.charInLine == EndColumn(job.source[..p.outputIdx], 0, job.tabWidth)
    && NothingCollapses(shown, true) && HardWhereNeeded(shown, true)
    && p.lastWasSpace == (shown == [] || LastIsSpace(shown))
    && IsBroken(job, text, shown, job.Cuts(p.outputIdx))
  }

  /** The text is written with line breaks, `cuts` of them more than it has line ends. */
  ghost predicate IsBroken(job: Job, text: string, shown: seq<Symbol>, cuts: nat) {
    var broken := Broken(Coded(shown, IN_TEXT), job.LineBreak());
    |text| == |broken| + cuts * |job.LineBreak()| && (cuts == 0 ==> text == broken)
  }

  lemma ShowsNothing(job: Job)
    ensures Shows(job, "", [], Progress(0, true, 0))
  {
    assert job.source[..0] == "";
  }

  /** One more chunk of the source, escaped and spaced, continues the text. */
  lemma ShowsMore(job: Job, text: string, shown: seq<Symbol>, p: Progress, to: nat)
    requires Shows(job, text, shown, p) && p.outputIdx < to <= |job.source|
    requires p.outputIdx == 0 || job.IsBoundary(p.outputIdx)
    requires forall i :: p.outputIdx < i < to ==> !job.IsBoundary(i)
    ensures var chunk := job.source[p.outputIdx..to];
      var expanded, col := Expanded(chunk, p.charInLine, job.tabWidth), EndColumn(chunk, p.charInLine, job.tabWidth);
      var html := Presented(TextToHtml(expanded), p.lastWasSpace);
      var more := shown + SpacedChunk(expanded, p.lastWasSpace);
      && Writes(job, p.outputIdx, to, Broken(html, job.LineBreak()))
      && Shows(job, text + Broken(html, job.LineBreak()), more, Progress(to, EndsWithSpace(html), col))
  {
    hide TextToHtml, Expanded, EndColumn, Broken, Presented, SpacedChunk, Coded, Chars, NothingCollapses;
    hide Job.Cuts, Job.IsBoundary, Job.LineBreak, CutBetween, IsBroken, IsHardened, HardWhereNeeded;
    var lo := p.outputIdx;
    var before, chunk := job.source[..lo], job.source[lo..to];
    var expanded := Expanded(chunk, p.charInLine, job.tabWidth);
    var spaced := SpacedChunk(expanded, p.lastWasSpace);
    assert job.source[..to] == before + chunk;
    ExpandedConcat(before, chunk, 0, job.tabWidth);
    PresentedIsSpaced(expanded, p.lastWasSpace);
    EndsAsLast(spaced);
    CharsConcat(shown, spaced);
    CodedConcat(shown, spaced, IN_TEXT);
    CutInSource(before, chunk, shown, spaced, job.tabWidth);
    assert LastIsSpace(shown + spaced) == LastIsSpace(spaced);
    ChunkKeepsSpaces(expanded, p.lastWasSpace);
    CollapseConcat(shown, spaced);
    HardenedWhereNeeded(spaced, expanded, p.lastWasSpace, p.lastWasSpace);
    HardConcat(shown, spaced);
    CutsFurther(job, lo, to);
    BrokenFurther(job, text, shown, spaced, job.Cuts(lo));
  }

  lemma ChunkKeepsSpaces(text: string, lastWasSpace: bool)
    ensures NothingCollapses(SpacedChunk(text, lastWasSpace), lastWasSpace)
  {
    SpacedNeverCollapses(text, LineStart, true);
    SpacedNeverCollapses(text, Other, false);
  }

  /** One more chunk is one more line break if it begins within a line end. */
  lemma BrokenFurther(job: Job, text: string, shown: seq<Symbol>, chunk: seq<Symbol>, cuts: nat)
    requires IsBroken(job, text, shown, cuts)
    ensures var more := if CutBetween(Coded(shown, IN_TEXT), Coded(chunk, IN_TEXT)) then 1 else 0;
      IsBroken(job, text + Broken(Coded(chunk, IN_TEXT), job.LineBreak()), shown + chunk, cuts + more)
  {
    hide Coded, Broken, CutBetween, Job.LineBreak;
    CodedConcat(shown, chunk, IN_TEXT);
    BrokenTogether(Coded(shown, IN_TEXT), Coded(chunk, IN_TEXT), job.LineBreak());
    assert (cuts + 1) * |job.LineBreak()| == cuts * |job.LineBreak()| + |job.LineBreak()|;
  }

  /** The next chunk cuts a line end where it begins or not at all. */
  lemma CutsFurther(job: Job, lo: nat, to: nat)
    requires lo < to <= |job.source|
    requires lo == 0 || job.IsBoundary(lo)
    requires forall i :: lo < i < to ==> !job.IsBoundary(i)
    ensures job.Cuts(to) == job.Cuts(lo) + if CutBetween(job.source[..lo], job.source[lo..to]) then 1 else 0
  {
    hide Job.IsBoundary;
    assert CutBetween(job.source[..lo], job.source[lo..]) == CutBetween(job.source[..lo], job.source[lo..to]);
    NoCutsBetween(job, lo, to);
  }

  lemma {:induction false} NoCutsBetween(job: Job, lo: nat, to: nat)
    requires lo < to <= |job.source|
    requires forall i :: lo < i < to ==> !job.IsBoundary(i)
    ensures job.Cuts(to) == job.Cuts(lo + 1)
  {
    hide Job.IsBoundary;
    if to > lo + 1 {
      NoCutsBetween(job, lo, to - 1);
    }
  }

  class Recombiner {
    const job: Job
    const tabExpander: TabExpander
    var html: seq<Piece>
    var outputIdx: nat
    var openDecoration: string
    var currentDecoration: string
    var lastWasSpace: bool
    ghost var tagsDone: nat
    ghost var shown: seq<Symbol>

    constructor (job: Job)
      ensures this.job == job && fresh(tabExpander)
      ensures Written() && outputIdx == 0 && currentDecoration == "" && tagsDone == 0
    {
      this.job := job;
      tabExpander := new TabExpander(job.tabWidth);
      html, outputIdx, openDecoration, currentDecoration, lastWasSpace := [], 0, "", "", true;
      tagsDone, shown := 0, [];
      new;
      ShowsNothing(job);
    }

    /** The page so far is read without complaint, up to `outputIdx` of the source. */
    ghost predicate Written()
      reads this, tabExpander
    {
      && ReadAll(job, html) == Accepted(Reader(outputIdx, openDecoration, tagsDone))
      && tabExpander.tabWidth == job.tabWidth
      && Shows(job, TextOf(html), shown, Progress(outputIdx, lastWasSpace, tabExpander.charInLine))
    }

    method Push(piece: Piece)
      modifies this`html
      ensures html == old(html) + [piece]
      ensures ReadAll(job, html) ==
        if ReadAll(job, old(html)).Refused? then Refused else Read(job, ReadAll(job, old(html)).reader, piece)
      ensures TextOf(html) == if piece.Text? then TextOf(old(html)) + piece.text else TextOf(old(html))
    {
      ReadOneMore(job, html, piece);
      html := html + [piece];
    }

    method CloseDecoration()
      requires Written() && openDecoration != ""
      modifies this`html, this`openDecoration
      ensures Written() && openDecoration == ""
    {
      hide ReadAll, TextOf, Shows;
      Push(Close);
      openDecoration := "";
    }

    method OpenDecoration()
      requires Written() && openDecoration == "" && currentDecoration != ""
      modifies this`html, this`openDecoration
      ensures Written() && openDecoration == currentDecoration
    {
      hide ReadAll, TextOf, Shows;
      Push(Open(currentDecoration));
      openDecoration := currentDecoration;
    }

    /** Outputs a properly escaped chunk of the source. */
    method EmitChunk(sourceIdx: nat)
      requires Written() && outputIdx < sourceIdx <= |job.source|
      requires job.Uniform(outputIdx, sourceIdx, openDecoration)
      modifies this`html, this`outputIdx, this`lastWasSpace, this`shown, tabExpander
      ensures Written() && outputIdx == sourceIdx
    {
      hide TextToHtml, Expanded, EndColumn, ReadAll, TextOf, Presented, Broken, Shows, Writes, IsExpansion;
      hide Job.LineBreak;
      ShowsMore(job, TextOf(html), shown, Progress(outputIdx, lastWasSpace, tabExpander.charInLine), sourceIdx);
      var expanded := tabExpander.Expand(job.source[outputIdx..sourceIdx]);
      var htmlChunk := Presented(TextToHtml(expanded), lastWasSpace);
      shown := shown + SpacedChunk(expanded, lastWasSpace);
      lastWasSpace := EndsWithSpace(htmlChunk);
      Push(Text(sourceIdx, Broken(htmlChunk, job.LineBreak())));
      outputIdx := sourceIdx;
    }

    /** Opens a section of decoration if need be, and outputs a chunk of the source. */
    method EmitTextUpTo(sourceIdx: nat)
      requires Written() && sourceIdx <= |job.source|
      requires job.Uniform(outputIdx, sourceIdx, currentDecoration)
      modifies this`html, this`outputIdx, this`openDecoration, this`lastWasSpace, this`shown, tabExpander
      ensures Written() && outputIdx == sourceIdx
    {
      hide ReadAll, TextOf, Shows;
      if sourceIdx > outputIdx {
        if openDecoration != "" && openDecoration != currentDecoration {
          CloseDecoration();
        }
        if openDecoration == "" && currentDecoration != "" {
          OpenDecoration();
        }
        EmitChunk(sourceIdx);
      }
    }

    /** Outputs the next tag, outside every span. */
    method EmitTag(tag: Tag)
      requires Written() && outputIdx == tag.pos
      requires tagsDone < |job.extractedTags| && job.extractedTags[tagsDone] == tag
      modifies this`html, this`openDecoration, this`tagsDone
      ensures Written() && tagsDone == old(tagsDone) + 1
    {
      hide ReadAll, TextOf, Shows;
      if openDecoration != "" {
        CloseDecoration();
      }
      Push(Raw(tag.html));
      tagsDone := tagsDone + 1;
    }

    /** Breaks the source around style boundaries while interleaving the tags. */
    method Recombine()
      requires job.Valid() && Written()
      requires outputIdx == 0 && currentDecoration == "" && tagsDone == 0
      modifies this, tabExpander
      ensures ReadAll(job, html) == Accepted(Reader(|job.source|, "", |job.extractedTags|))
      ensures Chars(shown) == Expanded(job.source, 0, job.tabWidth)
      ensures NothingCollapses(shown, true) && HardWhereNeeded(shown, true)
      ensures IsBroken(job, TextOf(html), shown, job.Cuts(|job.source|))
    {
      hide ReadAll, TextOf, Shows, Job.Consumed, Job.Uniform;
      var tagPos, decPos := 0, 0;
      NothingConsumed();
      while true
        invariant Written() && tagsDone == tagPos <= |job.extractedTags| && decPos <= |job.decorations|
        invariant job.Consumed(tagPos, decPos, outputIdx, currentDecoration)
        decreases |job.extractedTags| - tagPos + |job.decorations| - decPos
      {
        var outputTag := tagPos < |job.extractedTags| &&
          (decPos < |job.decorations| ==> job.extractedTags[tagPos].pos <= job.decorations[decPos].pos);
        if outputTag {
          job.ConsumeTag(tagPos, decPos, outputIdx, currentDecoration);
          EmitTextUpTo(job.extractedTags[tagPos].pos);
          EmitTag(job.extractedTags[tagPos]);
          tagPos := tagPos + 1;
        } else if decPos < |job.decorations| {
          job.ConsumeDecoration(tagPos, decPos, outputIdx, currentDecoration);
          EmitTextUpTo(job.decorations[decPos].pos);
          currentDecoration := job.decorations[decPos].style;
          decPos := decPos + 1;
        } else {
          break;
        }
      }
      InSource();
      job.ToNextBoundary(tagPos, decPos, outputIdx, currentDecoration, |job.source|);
      EmitTextUpTo(|job.source|);
      if openDecoration != "" {
        CloseDecoration();
      }
      AllShown();
    }

    lemma NothingConsumed()
      requires job.Valid() && outputIdx == 0 && currentDecoration == ""
      ensures job.Consumed(0, 0, outputIdx, currentDecoration)
    {
    }

    lemma InSource()
      requires Written()
      ensures outputIdx <= |job.source|
    {
    }

    lemma AllShown()
      requires Written() && outputIdx == |job.source|
      ensures Chars(shown) == Expanded(job.source, 0, job.tabWidth)
      ensures NothingCollapses(shown, true) && HardWhereNeeded(shown, true)
      ensures IsBroken(job, TextOf(html), shown, job.Cuts(|job.source|))
    {
      assert job.source[..|job.source|] == job.source;
    }
  }

  /** A line end with a style between its two characters. */
  const STYLED_LINE_END := Job("\r\n", [], [Decoration(0, "pln"), Decoration(1, "str")], 8, false)

  /** It is one line break, and is written as long as two. */
  method CutLineEndBreaksTwice() returns (r: Recombiner)
    ensures Broken("\r\n", "<br />") == "<br />"
    ensures Chars(r.shown) == "\r\n" && Broken(Coded(r.shown, IN_TEXT), "<br />") == "<br />"
    ensures ReadAll(STYLED_LINE_END, r.html).Accepted? && |TextOf(r.html)| == |"<br /><br />"|
  {
    hide ReadAll, TextOf, Coded, Chars, NothingCollapses, HardWhereNeeded, Expanded, Broken;
    var job := STYLED_LINE_END;
    LineEndIsCut();
    r := new Recombiner(job);
    r.Recombine();
    LineEndExpanded();
    LineEndShown(r.shown);
  }

  lemma LineEndIsCut()
    ensures STYLED_LINE_END.Valid() && STYLED_LINE_END.Cuts(2) == 1
    ensures STYLED_LINE_END.LineBreak() == "<br />"
  {
    var job := STYLED_LINE_END;
    assert job.decorations[1].pos == 1;
    assert job.source[..1][0] == '\r' && job.source[1..][0] == '\n';
    assert job.CutsAt(1) && job.Cuts(1) == 0;
  }

  lemma LineEndExpanded()
    ensures Expanded("\r\n", 0, 8) == "\r\n"
    ensures Broken("\r\n", "<br />") == "<br />"
  {
    assert "\r\n"[1..] == "\n" && "\n"[1..] == "" && "\r\n"[2..] == "";
  }

  lemma CharsHead(t: seq<Symbol>)
    ensures Chars(t) == "" <==> t == []
    ensures t != [] ==> t[0].Char() == Chars(t)[0] && Chars(t[1..]) == Chars(t)[1..]
  {
    assert t != [] ==> Chars(t) == [t[0].Char()] + Chars(t[1..]);
  }

  lemma LineEndShown(t: seq<Symbol>)
    requires Chars(t) == "\r\n"
    ensures Broken(Coded(t, IN_TEXT), "<br />") == "<br />"
  {
    CharsHead(t);
    CharsHead(t[1..]);
    assert "\r\n"[1..] == "\n" && "\n"[1..] == "";
    var rest := t[1..];
    assert t[0] == Plain('\r') && rest[0] == Plain('\n') && rest[1..] == [];
    assert Coded(rest, IN_TEXT) == "\n";
    assert Coded(t, IN_TEXT) == "\r\n";
    LineEndExpanded();
  }
}
