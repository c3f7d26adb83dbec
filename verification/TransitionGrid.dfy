/** The block of rows that shows what changed in the contexts of the nodes (timelinecli.go). */
module TransitionGrid {
  import opened Translations
  import opened LogEvents
  import opened Ordering

  const ROWS_PER_TRANSITION := 4
  const NUMBER_OF_POSSIBLE_TRANSITION := 4

  datatype Transition = Transition(s1: string, s2: string, changeType: string, ok: bool, summary: seq<string>) {

    /** Each row of the summary ends with the tab that closes its cell; nothing is painted. */
    function SummarizedIfDifferent(): Transition {
      if s1 != s2
      then this.(ok := true, summary := [s1 + "\t", "(" + changeType + ")" + "\t", " V " + "\t", s2 + "\t"])
      else this.(summary := seq(|summary|, i requires 0 <= i < |summary| => summary[i] + "\t"))
    }
  }

  function NewTransition(s1: string, s2: string, changeType: string): Transition {
    Transition(s1, s2, changeType, false, ["", "", "", ""])
  }

  /** The transitions that happened, in order. */
  function Found(tests: seq<Transition>): seq<Transition> {
    if tests == [] then []
    else
      var n := |tests|;
      if tests[n-1].ok then Found(tests[..n-1]) + [tests[n-1]] else Found(tests[..n-1])
  }

  lemma {:induction false} FoundConcat(a: seq<Transition>, b: seq<Transition>)
    ensures Found(a + b) == Found(a) + Found(b)
  {
    if b == [] {
      assert a + b == a;
    } else {
      FoundConcat(a, b[..|b|-1]);
      assert (a + b)[..|a + b|-1] == a + b[..|b|-1];
    }
  }

  lemma NoneFound(tests: seq<Transition>)
    requires tests == []
    ensures Found(tests) == []
  {
  }

  lemma FoundStep(tests: seq<Transition>, i: nat)
    requires i < |tests|
    ensures Found(tests[..i+1]) == Found(tests[..i]) + if tests[i].ok then [tests[i]] else []
  {
    assert tests[..i+1][..i] == tests[..i];
  }

  lemma {:induction false} FoundFew(tests: seq<Transition>)
    ensures |Found(tests)| <= |tests|
  {
    if tests != [] {
      FoundFew(tests[..|tests|-1]);
    }
  }

  /** Where the stack stops skipping transitions that did not happen: from there on all of them are needed. */
  function Pivot(tests: seq<Transition>, height: nat, i: nat): (k: nat)
    requires i <= |tests| && |Found(tests)| <= height <= |Found(tests[..i])| + |tests| - i
    ensures i <= k <= |tests| && |Found(tests[..k])| + |tests| - k == height
    ensures forall j :: i <= j < k ==> |Found(tests[..j])| + |tests| - j > height
    decreases |tests| - i
  {
    assert i == |tests| ==> tests[..i] == tests;
    if |Found(tests[..i])| + |tests| - i == height then i
    else
      assert tests[..i+1][..i] == tests[..i];
      Pivot(tests, height, i + 1)
  }

  /** The `height` transitions shown in a column: those found, and the last of the others as padding. */
  function Stack(tests: seq<Transition>, height: nat): seq<Transition>
    requires |Found(tests)| <= height <= |tests|
  {
    var k := Pivot(tests, height, 0);
    Found(tests[..k]) + tests[k..]
  }

  /** A column shows exactly `height` transitions, every one that was found once and in order. */
  lemma StackShowsFound(tests: seq<Transition>, height: nat)
    requires |Found(tests)| <= height <= |tests|
    ensures |Stack(tests, height)| == height
    ensures Found(Stack(tests, height)) == Found(tests)
  {
    StackFrom(tests, Pivot(tests, height, 0));
  }

  lemma StackFrom(tests: seq<Transition>, k: nat)
    requires k <= |tests|
    ensures Found(Found(tests[..k]) + tests[k..]) == Found(tests)
  {
    hide Found;
    FoundConcat(tests[..k], tests[k..]);
    FoundConcat(Found(tests[..k]), tests[k..]);
    FoundTwice(tests[..k]);
    assert tests[..k] + tests[k..] == tests;
  }

  lemma {:induction false} FoundTwice(tests: seq<Transition>)
    ensures Found(Found(tests)) == Found(tests)
  {
    if tests != [] {
      FoundTwice(tests[..|tests|-1]);
      FoundConcat(Found(tests[..|tests|-1]), [tests[|tests|-1]]);
      assert [tests[|tests|-1]][..0] == [];
    }
  }

  class Transitions {
    var tests: seq<Transition>
    var transitionToPrint: seq<Transition>
    var numberFound: nat

    constructor (tests: seq<Transition>)
      ensures this.tests == tests && transitionToPrint == [] && numberFound == 0
    {
      this.tests, transitionToPrint, numberFound := tests, [], 0;
    }

    method FillEmptyTransition()
      modifies this`tests
      ensures tests == Filled(old(tests))
    {
      if |tests| == NUMBER_OF_POSSIBLE_TRANSITION {
        return;
      }
      var i := |tests|;
      while i < NUMBER_OF_POSSIBLE_TRANSITION
        invariant i == |tests| && Filled(tests) == Filled(old(tests))
      {
        tests := tests + [NewTransition("", "", "")];
        i := i + 1;
      }
    }

    method Iterate()
      requires numberFound == 0
      modifies this`tests, this`numberFound
      ensures tests == Summarized(old(tests))
      ensures forall i :: 0 <= i < |tests| ==> IsSummarized(old(tests)[i], tests[i])
      ensures numberFound == |Found(tests)|
    {
      hide Found, IsSummarized, Transition.SummarizedIfDifferent;
      NoneFound(tests[..0]);
      var i := 0;
      while i < |tests|
        invariant 0 <= i <= |tests| == |old(tests)|
        invariant forall j :: 0 <= j < |tests| ==>
          tests[j] == if j < i then old(tests)[j].SummarizedIfDifferent() else old(tests)[j]
        invariant forall j :: 0 <= j < i ==> IsSummarized(old(tests)[j], tests[j])
        invariant numberFound == |Found(tests[..i])|
      {
        ghost var before := tests;
        tests := tests[i := tests[i].SummarizedIfDifferent()];
        SummarizedIs(before[i]);
        FoundStep(tests, i);
        assert tests[..i] == before[..i];
        if tests[i].ok {
          numberFound := numberFound + 1;
        }
        i := i + 1;
      }
      assert tests[..i] == tests;
    }

    /** Prints at least `height` transitions exactly when there are that many, and the stack comes first. */
    method StackPrioritizeFound(height: nat)
      requires transitionToPrint == [] && |Found(tests)| <= height
      modifies this`transitionToPrint
      ensures |transitionToPrint| >= height <==> height <= |tests|
      ensures height <= |tests| ==> transitionToPrint[..height] == Stack(tests, height)
    {
      hide Found, Pivot;
      var i := 0;
      NoneFound(tests[..0]);
      ghost var pivot := if height <= |tests| then Pivot(tests, height, 0) else |tests| + 1;
      while i < |tests|
        invariant 0 <= i <= |tests|
        invariant i <= pivot ==> transitionToPrint == Found(tests[..i])
        invariant i > pivot ==> |transitionToPrint| >= height && transitionToPrint[..height] == Stack(tests, height)
      {
        FoundStep(tests, i);
        FoundFew(tests[..i]);
        if |tests| - i + |transitionToPrint| == height {
          transitionToPrint := transitionToPrint + tests[i..];
        }
        if tests[i].ok {
          transitionToPrint := transitionToPrint + [tests[i]];
        }
        i := i + 1;
      }
      assert tests[..i] == tests;
      FoundFew(tests);
    }
  }

  /** What a test becomes: a difference is summarized in four cells, and every cell is closed by a tab. */
  ghost predicate IsSummarized(test: Transition, t: Transition) {
    && t.s1 == test.s1 && t.s2 == test.s2 && t.changeType == test.changeType
    && if test.s1 == test.s2
       then
         && t.ok == test.ok && |t.summary| == |test.summary|
         && forall row :: 0 <= row < |t.summary| ==> t.summary[row] == test.summary[row] + "\t"
       else t.ok && t.summary == [test.s1 + "\t", "(" + test.changeType + ")\t", " V \t", test.s2 + "\t"]
  }

  lemma SummarizedIs(test: Transition)
    ensures IsSummarized(test, test.SummarizedIfDifferent())
  {
    assert "(" + test.changeType + ")" + "\t" == "(" + test.changeType + ")\t";
    assert " V " + "\t" == " V \t";
  }

  function Filled(tests: seq<Transition>): seq<Transition>
    decreases NUMBER_OF_POSSIBLE_TRANSITION - |tests|
  {
    if |tests| >= NUMBER_OF_POSSIBLE_TRANSITION then tests else Filled(tests + [NewTransition("", "", "")])
  }

  function Summarized(tests: seq<Transition>): (r: seq<Transition>)
    ensures |r| == |tests| && forall i :: 0 <= i < |tests| ==> r[i] == tests[i].SummarizedIfDifferent()
  {
    seq(|tests|, i requires 0 <= i < |tests| => tests[i].SummarizedIfDifferent())
  }

  // ---------- the whole block ----------

  /** What is compared between two contexts of one node. */
  function Tests(before: LogCtx, after: LogCtx): (tests: seq<Transition>)
    ensures |tests| <= NUMBER_OF_POSSIBLE_TRANSITION
    ensures forall t :: t in tests ==> |t.summary| == ROWS_PER_TRANSITION
  {
    [NewTransition(before.filePath, after.filePath, "file path")] +
    (if before.ownNames != [] && after.ownNames != []
     then [NewTransition(before.ownNames[|before.ownNames|-1], after.ownNames[|after.ownNames|-1], "node name")]
     else []) +
    (if before.ownIPs != [] && after.ownIPs != []
     then [NewTransition(before.ownIPs[|before.ownIPs|-1], after.ownIPs[|after.ownIPs|-1], "node ip")]
     else []) +
    (if before.version != "" && after.version != ""
     then [NewTransition(before.version, after.version, "version")]
     else [])
  }

  /** The resolved tests of one column: a node without both contexts has only empty ones. */
  function ColumnTests(node: string, oldlogCtxs: map<string, LogCtx>, logCtxs: map<string, LogCtx>): seq<Transition> {
    Summarized(Filled(if node in logCtxs && node in oldlogCtxs then Tests(oldlogCtxs[node], logCtxs[node]) else []))
  }

  lemma {:induction false} FilledShape(tests: seq<Transition>)
    requires |tests| <= NUMBER_OF_POSSIBLE_TRANSITION
    requires forall t :: t in tests ==> |t.summary| == ROWS_PER_TRANSITION
    ensures |Filled(tests)| == NUMBER_OF_POSSIBLE_TRANSITION
    ensures forall t :: t in Filled(tests) ==> |t.summary| == ROWS_PER_TRANSITION
    decreases NUMBER_OF_POSSIBLE_TRANSITION - |tests|
  {
    if |tests| < NUMBER_OF_POSSIBLE_TRANSITION {
      FilledShape(tests + [NewTransition("", "", "")]);
    }
  }

  ghost predicate IsColumn(tests: seq<Transition>) {
    && |tests| == NUMBER_OF_POSSIBLE_TRANSITION
    && forall i :: 0 <= i < |tests| ==> |tests[i].summary| == ROWS_PER_TRANSITION
  }

  lemma ColumnShape(node: string, oldlogCtxs: map<string, LogCtx>, logCtxs: map<string, LogCtx>)
    ensures IsColumn(ColumnTests(node, oldlogCtxs, logCtxs))
  {
    FilledShape(if node in logCtxs && node in oldlogCtxs then Tests(oldlogCtxs[node], logCtxs[node]) else []);
  }

  method ResolveTests(node: string, oldlogCtxs: map<string, LogCtx>, logCtxs: map<string, LogCtx>)
    returns (t: Transitions)
    ensures fresh(t) && t.tests == ColumnTests(node, oldlogCtxs, logCtxs)
    ensures t.transitionToPrint == [] && t.numberFound == |Found(t.tests)|
  {
    hide Found, Summarized;
    var tests: seq<Transition> := [];
    if node in logCtxs && node in oldlogCtxs {
      tests := BuildTests(oldlogCtxs[node], logCtxs[node]);
    }
    t := new Transitions(tests);
    t.FillEmptyTransition();
    t.Iterate();
  }

  method BuildTests(oldlogCtx: LogCtx, logCtx: LogCtx) returns (tests: seq<Transition>)
    ensures tests == Tests(oldlogCtx, logCtx)
  {
    tests := [NewTransition(oldlogCtx.filePath, logCtx.filePath, "file path")];
    if |oldlogCtx.ownNames| > 0 && |logCtx.ownNames| > 0 {
      tests := tests + [NewTransition(
        oldlogCtx.ownNames[|oldlogCtx.ownNames|-1], logCtx.ownNames[|logCtx.ownNames|-1], "node name")];
    }
    if |oldlogCtx.ownIPs| > 0 && |logCtx.ownIPs| > 0 {
      tests := tests + [NewTransition(
        oldlogCtx.ownIPs[|oldlogCtx.ownIPs|-1], logCtx.ownIPs[|logCtx.ownIPs|-1], "node ip")];
    }
    if oldlogCtx.version != "" && logCtx.version != "" {
      tests := tests + [NewTransition(oldlogCtx.version, logCtx.version, "version")];
    }
  }

  /** The cells of one row, column after column. */
  function Line(stacks: seq<seq<Transition>>, i: nat, row: nat): string
    requires forall k :: 0 <= k < |stacks| ==> i < |stacks[k]| && row < |stacks[k][i].summary|
  {
    if stacks == [] then ""
    else Line(stacks[..|stacks|-1], i, row) + stacks[|stacks|-1][i].summary[row]
  }

  ghost predicate IsStack(stack: seq<Transition>, height: nat) {
    |stack| == height && forall i :: 0 <= i < height ==> |stack[i].summary| == ROWS_PER_TRANSITION
  }

  ghost predicate AreStacks(stacks: seq<seq<Transition>>, height: nat) {
    forall k :: 0 <= k < |stacks| ==> IsStack(stacks[k], height)
  }

  /** The first `n` rows of the block, each but the very last followed by the start of the next. */
  function Block(stacks: seq<seq<Transition>>, height: nat, n: nat): string
    requires AreStacks(stacks, height) && n <= height * ROWS_PER_TRANSITION
  {
    if n == 0 then "\t"
    else
      Block(stacks, height, n - 1)
      + Line(stacks, (n - 1) / ROWS_PER_TRANSITION, (n - 1) % ROWS_PER_TRANSITION)
      + if n == height * ROWS_PER_TRANSITION then "" else "\n\t"
  }

  function Columns(keys: seq<string>, oldlogCtxs: map<string, LogCtx>, logCtxs: map<string, LogCtx>)
    : (columns: seq<seq<Transition>>)
    ensures |columns| == |keys|
    ensures forall k :: 0 <= k < |keys| ==> columns[k] == ColumnTests(keys[k], oldlogCtxs, logCtxs)
  {
    seq(|keys|, k requires 0 <= k < |keys| => ColumnTests(keys[k], oldlogCtxs, logCtxs))
  }

  /** The largest number of transitions found in one column. */
  function Height(columns: seq<seq<Transition>>): (h: nat)
    ensures forall k :: 0 <= k < |columns| ==> |Found(columns[k])| <= h
  {
    if columns == [] then 0
    else
      var n, h := |Found(columns[|columns|-1])|, Height(columns[..|columns|-1]);
      if n > h then n else h
  }

  ghost predicate Fit(columns: seq<seq<Transition>>, height: nat) {
    forall k :: 0 <= k < |columns| ==> IsColumn(columns[k]) && |Found(columns[k])| <= height <= |columns[k]|
  }

  /** The height of the block never exceeds the number of tests of a column. */
  lemma HeightFits(keys: seq<string>, oldlogCtxs: map<string, LogCtx>, logCtxs: map<string, LogCtx>)
    ensures var columns := Columns(keys, oldlogCtxs, logCtxs); Fit(columns, Height(columns))
  {
    var columns := Columns(keys, oldlogCtxs, logCtxs);
    forall k | 0 <= k < |keys|
      ensures IsColumn(columns[k])
    {
      ColumnShape(keys[k], oldlogCtxs, logCtxs);
    }
    HeightBounded(columns);
  }

  lemma {:induction false} HeightBounded(columns: seq<seq<Transition>>)
    requires forall k :: 0 <= k < |columns| ==> IsColumn(columns[k])
    ensures Height(columns) <= NUMBER_OF_POSSIBLE_TRANSITION
  {
    if columns != [] {
      HeightBounded(columns[..|columns|-1]);
      FoundFew(columns[|columns|-1]);
    }
  }

  /** The stacks of all columns, in the order of the keys. */
  ghost function Stacks(columns: seq<seq<Transition>>, height: nat): (stacks: seq<seq<Transition>>)
    requires Fit(columns, height)
    ensures |stacks| == |columns| && AreStacks(stacks, height)
    ensures forall k :: 0 <= k < |columns| ==> stacks[k] == Stack(columns[k], height)
  {
    if columns == [] then []
    else
      StackShape(columns[|columns|-1], height);
      Stacks(columns[..|columns|-1], height) + [Stack(columns[|columns|-1], height)]
  }

  lemma StackShape(tests: seq<Transition>, height: nat)
    requires |Found(tests)| <= height <= |tests| && IsColumn(tests)
    ensures IsStack(Stack(tests, height), height)
  {
    var k := Pivot(tests, height, 0);
    assert forall t :: t in tests ==> |t.summary| == ROWS_PER_TRANSITION;
    FoundAmong(tests[..k]);
    assert forall t :: t in Stack(tests, height) ==> t in tests;
  }

  lemma {:induction false} FoundAmong(tests: seq<Transition>)
    ensures forall t :: t in Found(tests) ==> t in tests
  {
    if tests != [] {
      FoundAmong(tests[..|tests|-1]);
    }
  }

  /** The block over all columns, as high as the column in which most has changed. */
  ghost function Separator(keys: seq<string>, oldlogCtxs: map<string, LogCtx>, logCtxs: map<string, LogCtx>): string {
    var columns := Columns(keys, oldlogCtxs, logCtxs);
    var height := Height(columns);
    HeightFits(keys, oldlogCtxs, logCtxs);
    if height == 0 then "" else Block(Stacks(columns, height), height, height * ROWS_PER_TRANSITION)
  }

  method TransitionSeparator(keys: seq<string>, oldlogCtxs: map<string, LogCtx>, logCtxs: map<string, LogCtx>)
    returns (out: string)
    requires Distinct(keys)
    ensures out == Separator(keys, oldlogCtxs, logCtxs)
    ensures ShowsChanges(out, keys, oldlogCtxs, logCtxs)
  {
    hide Found, Pivot, Stack, ColumnTests, Height, Block, Line, ShowsChanges;
    SeparatorShowsChanges(keys, oldlogCtxs, logCtxs);
    var ts, height := CompileStacks(keys, oldlogCtxs, logCtxs);
    ghost var stacks := Stacks(Columns(keys, oldlogCtxs, logCtxs), height);
    BlockStart(stacks, height);
    var toPrint := map node | node in ts :: ts[node].transitionToPrint;
    out := "\t";
    for i := 0 to height
      invariant out == Block(stacks, height, i * ROWS_PER_TRANSITION)
    {
      for row := 0 to ROWS_PER_TRANSITION
        invariant out == Block(stacks, height, i * ROWS_PER_TRANSITION + row)
      {
        var line := PrintLine(keys, toPrint, stacks, height, i, row);
        out := out + line;
        if !(i == height - 1 && row == ROWS_PER_TRANSITION - 1) {
          out := out + "\n\t";
        }
        BlockStep(stacks, height, i, row);
      }
    }
    BlockLength(stacks, height, height * ROWS_PER_TRANSITION);
    if out == "\t" {
      out := "";
    }
  }

  lemma BlockStart(stacks: seq<seq<Transition>>, height: nat)
    requires AreStacks(stacks, height)
    ensures Block(stacks, height, 0) == "\t"
  {
  }

  lemma BlockStep(stacks: seq<seq<Transition>>, height: nat, i: nat, row: nat)
    requires AreStacks(stacks, height) && i < height && row < ROWS_PER_TRANSITION
    ensures Block(stacks, height, i * ROWS_PER_TRANSITION + row + 1) ==
      Block(stacks, height, i * ROWS_PER_TRANSITION + row) + Line(stacks, i, row)
      + if i == height - 1 && row == ROWS_PER_TRANSITION - 1 then "" else "\n\t"
  {
  }

  lemma {:induction false} BlockLength(stacks: seq<seq<Transition>>, height: nat, n: nat)
    requires AreStacks(stacks, height) && n <= height * ROWS_PER_TRANSITION
    ensures |Block(stacks, height, n)| >= if n < height * ROWS_PER_TRANSITION || n == 0 then 1 + 2 * n else 2 * n - 1
  {
    if n > 0 {
      BlockLength(stacks, height, n - 1);
    }
  }

  /** One row: the cell of every column, in the order of the keys. */
  method PrintLine(
    keys: seq<string>, toPrint: map<string, seq<Transition>>, ghost stacks: seq<seq<Transition>>, height: nat,
    i: nat, row: nat)
    returns (line: string)
    requires AreStacks(stacks, height) && |stacks| == |keys| && i < height && row < ROWS_PER_TRANSITION
    requires forall k :: 0 <= k < |keys| ==>
      && keys[k] in toPrint && height <= |toPrint[keys[k]]|
      && toPrint[keys[k]][..height] == stacks[k]
    ensures line == Line(stacks, i, row)
  {
    line := "";
    for k := 0 to |keys|
      invariant line == Line(stacks[..k], i, row)
    {
      assert stacks[..k+1][..k] == stacks[..k];
      assert toPrint[keys[k]][i] == stacks[k][i];
      line := line + toPrint[keys[k]][i].summary[row];
    }
    assert stacks[..|stacks|] == stacks;
  }

  /** Resolves every column, finds the height of the block and compiles the stacks to print. */
  method CompileStacks(keys: seq<string>, oldlogCtxs: map<string, LogCtx>, logCtxs: map<string, LogCtx>)
    returns (ts: map<string, Transitions>, height: nat)
    requires Distinct(keys)
    ensures var columns := Columns(keys, oldlogCtxs, logCtxs);
      && height == Height(columns) && Fit(columns, height)
      && forall k :: 0 <= k < |keys| ==>
        && keys[k] in ts && height <= |ts[keys[k]].transitionToPrint|
        && ts[keys[k]].transitionToPrint[..height] == Stacks(columns, height)[k]
  {
    hide Found, Pivot, Stack, ColumnTests;
    ghost var columns := Columns(keys, oldlogCtxs, logCtxs);
    ts := map[];
    for k := 0 to |keys|
      invariant forall node :: node in ts ==> fresh(ts[node])
      invariant forall j :: 0 <= j < k ==> keys[j] in ts && IsResolved(ts[keys[j]], columns[j])
      invariant forall m, n :: m in ts && n in ts && m != n ==> ts[m] != ts[n]
    {
      var t := ResolveTests(keys[k], oldlogCtxs, logCtxs);
      ts := ts[keys[k] := t];
    }
    height := FindHeight(keys, ts, columns);
    HeightFits(keys, oldlogCtxs, logCtxs);
    for k := 0 to |keys|
      invariant forall j :: 0 <= j < k ==>
        && height <= |ts[keys[j]].transitionToPrint|
        && ts[keys[j]].transitionToPrint[..height] == Stacks(columns, height)[j]
      invariant forall j :: k <= j < |keys| ==> IsResolved(ts[keys[j]], columns[j])
    {
      ts[keys[k]].StackPrioritizeFound(height);
    }
  }

  method FindHeight(keys: seq<string>, ts: map<string, Transitions>, ghost columns: seq<seq<Transition>>)
    returns (height: nat)
    requires |columns| == |keys|
    requires forall j :: 0 <= j < |keys| ==> keys[j] in ts && IsResolved(ts[keys[j]], columns[j])
    ensures height == Height(columns)
  {
    height := 0;
    for k := 0 to |keys|
      invariant height == Height(columns[..k])
    {
      assert columns[..k+1][..k] == columns[..k];
      if ts[keys[k]].numberFound > height {
        height := ts[keys[k]].numberFound;
      }
    }
    assert columns[..|keys|] == columns;
  }

  ghost predicate IsResolved(t: Transitions, column: seq<Transition>)
    reads t
  {
    t.tests == column && t.transitionToPrint == [] && t.numberFound == |Found(column)|
  }

  // ---------- when there is a block at all ----------

  ghost predicate Unchanged(tests: seq<Transition>) {
    forall t :: t in tests ==> t.s1 == t.s2
  }

  /** No two contexts of the node that differ in a test. */
  ghost predicate Still(node: string, oldlogCtxs: map<string, LogCtx>, logCtxs: map<string, LogCtx>) {
    node in logCtxs && node in oldlogCtxs ==> Unchanged(Tests(oldlogCtxs[node], logCtxs[node]))
  }

  ghost predicate Unresolved(tests: seq<Transition>) {
    forall t :: t in tests ==> !t.ok
  }

  lemma {:induction false} NothingFound(tests: seq<Transition>)
    ensures Found(tests) == [] <==> Unresolved(tests)
  {
    if tests != [] {
      var n := |tests| - 1;
      NothingFound(tests[..n]);
      assert tests == tests[..n] + [tests[n]];
    }
  }

  lemma {:induction false} FilledUnchanged(tests: seq<Transition>)
    requires Unresolved(tests)
    ensures Unchanged(Filled(tests)) <==> Unchanged(tests)
    ensures Unresolved(Filled(tests))
    decreases NUMBER_OF_POSSIBLE_TRANSITION - |tests|
  {
    if |tests| < NUMBER_OF_POSSIBLE_TRANSITION {
      var more := tests + [NewTransition("", "", "")];
      assert forall t :: t in tests ==> t in more;
      FilledUnchanged(more);
    }
  }

  lemma SummarizedUnchanged(tests: seq<Transition>)
    requires Unresolved(tests)
    ensures Unresolved(Summarized(tests)) <==> Unchanged(tests)
  {
    var r := Summarized(tests);
    if Unresolved(r) {
      forall i | 0 <= i < |tests|
        ensures tests[i].s1 == tests[i].s2
      {
        assert r[i] in r;
      }
    }
  }

  /** Nothing is found in a column exactly when the node has no two contexts that differ in a test. */
  lemma ColumnUnchanged(node: string, oldlogCtxs: map<string, LogCtx>, logCtxs: map<string, LogCtx>)
    ensures Found(ColumnTests(node, oldlogCtxs, logCtxs)) == [] <==>
      Still(node, oldlogCtxs, logCtxs)
  {
    hide Found, Filled;
    var tests := if node in logCtxs && node in oldlogCtxs then Tests(oldlogCtxs[node], logCtxs[node]) else [];
    assert Unresolved(tests);
    FilledUnchanged(tests);
    SummarizedUnchanged(Filled(tests));
    NothingFound(Summarized(Filled(tests)));
  }

  lemma {:induction false} NoHeight(columns: seq<seq<Transition>>)
    ensures Height(columns) == 0 <==> forall k :: 0 <= k < |columns| ==> Found(columns[k]) == []
  {
    if columns != [] {
      NoHeight(columns[..|columns|-1]);
    }
  }

  /** There is no separator exactly when no context of any node changed in what is compared. */
  lemma SeparatorShowsChange(keys: seq<string>, oldlogCtxs: map<string, LogCtx>, logCtxs: map<string, LogCtx>)
    ensures Separator(keys, oldlogCtxs, logCtxs) == "" <==>
      forall node :: node in keys ==> Still(node, oldlogCtxs, logCtxs)
  {
    hide Found, Height, Block, ColumnTests, Still;
    var columns := Columns(keys, oldlogCtxs, logCtxs);
    var height := Height(columns);
    HeightFits(keys, oldlogCtxs, logCtxs);
    BlockLength(Stacks(columns, height), height, height * ROWS_PER_TRANSITION);
    NoHeight(columns);
    forall k | 0 <= k < |keys|
      ensures Found(columns[k]) == [] <==>
        Still(keys[k], oldlogCtxs, logCtxs)
    {
      ColumnUnchanged(keys[k], oldlogCtxs, logCtxs);
    }
  }

  // ---------- columns in which nothing changed ----------

  const BLANK: seq<string> := ["\t", "\t", "\t", "\t"]

  ghost predicate IsBlank(tests: seq<Transition>) {
    IsColumn(tests) && Unresolved(tests) && forall t :: t in tests ==> t.summary == BLANK
  }

  ghost predicate Fresh(tests: seq<Transition>) {
    forall t :: t in tests ==> !t.ok && t.s1 == t.s2 && t.summary == ["", "", "", ""]
  }

  lemma {:induction false} FilledFresh(tests: seq<Transition>)
    requires Fresh(tests)
    ensures Fresh(Filled(tests))
    decreases NUMBER_OF_POSSIBLE_TRANSITION - |tests|
  {
    if |tests| < NUMBER_OF_POSSIBLE_TRANSITION {
      FilledFresh(tests + [NewTransition("", "", "")]);
    }
  }

  lemma SummarizedBlank(tests: seq<Transition>)
    requires Fresh(tests)
    ensures forall t :: t in Summarized(tests) ==> !t.ok && t.summary == BLANK
  {
    forall i | 0 <= i < |tests|
      ensures !tests[i].SummarizedIfDifferent().ok && tests[i].SummarizedIfDifferent().summary == BLANK
    {
      assert tests[i] in tests;
      assert ["", "", "", ""][0] + "\t" == "\t";
      var summary := tests[i].SummarizedIfDifferent().summary;
      assert |summary| == 4 && summary == [summary[0], summary[1], summary[2], summary[3]];
    }
  }

  lemma StillIsBlank(node: string, oldlogCtxs: map<string, LogCtx>, logCtxs: map<string, LogCtx>)
    requires Still(node, oldlogCtxs, logCtxs)
    ensures IsBlank(ColumnTests(node, oldlogCtxs, logCtxs))
  {
    hide Filled, Found;
    ColumnShape(node, oldlogCtxs, logCtxs);
    var tests := if node in logCtxs && node in oldlogCtxs then Tests(oldlogCtxs[node], logCtxs[node]) else [];
    assert Fresh(tests);
    FilledFresh(tests);
    SummarizedBlank(Filled(tests));
  }

  /** What is printed of two columns is the same. */
  ghost predicate PrintAlike(a: seq<Transition>, b: seq<Transition>) {
    a == b || (IsBlank(a) && IsBlank(b))
  }

  lemma AlikeFound(a: seq<Transition>, b: seq<Transition>)
    requires PrintAlike(a, b)
    ensures |Found(a)| == |Found(b)|
  {
    if a != b {
      NothingFound(a);
      NothingFound(b);
    }
  }

  lemma BlankStack(tests: seq<Transition>, height: nat)
    requires IsBlank(tests) && |Found(tests)| <= height <= |tests|
    ensures forall i :: 0 <= i < height ==> |Stack(tests, height)| == height && Stack(tests, height)[i].summary == BLANK
  {
    StackShape(tests, height);
    FoundAmong(tests[..Pivot(tests, height, 0)]);
    assert forall t :: t in Stack(tests, height) ==> t in tests;
  }

  /** Stacks whose transitions are summarized alike. */
  ghost predicate SameSummaries(a: seq<seq<Transition>>, b: seq<seq<Transition>>, height: nat) {
    && AreStacks(a, height) && AreStacks(b, height) && |a| == |b|
    && forall k, i :: 0 <= k < |a| && 0 <= i < height ==> a[k][i].summary == b[k][i].summary
  }

  lemma StacksAlike(a: seq<seq<Transition>>, b: seq<seq<Transition>>, height: nat)
    requires Fit(a, height) && Fit(b, height) && |a| == |b|
    requires forall k :: 0 <= k < |a| ==> PrintAlike(a[k], b[k])
    ensures SameSummaries(Stacks(a, height), Stacks(b, height), height)
  {
    hide Stack, Found;
    forall k, i | 0 <= k < |a| && 0 <= i < height
      ensures Stacks(a, height)[k][i].summary == Stacks(b, height)[k][i].summary
    {
      if a[k] != b[k] {
        BlankStack(a[k], height);
        BlankStack(b[k], height);
      }
    }
  }

  lemma {:induction false} LineAlike(a: seq<seq<Transition>>, b: seq<seq<Transition>>, height: nat, i: nat, row: nat)
    requires SameSummaries(a, b, height) && i < height && row < ROWS_PER_TRANSITION
    ensures Line(a, i, row) == Line(b, i, row)
  {
    if a != [] {
      LineAlike(a[..|a|-1], b[..|b|-1], height, i, row);
    }
  }

  lemma {:induction false} BlockAlike(a: seq<seq<Transition>>, b: seq<seq<Transition>>, height: nat, n: nat)
    requires SameSummaries(a, b, height) && n <= height * ROWS_PER_TRANSITION
    ensures Block(a, height, n) == Block(b, height, n)
  {
    hide SameSummaries, Line;
    if n > 0 {
      BlockAlike(a, b, height, n - 1);
      LineAlike(a, b, height, (n - 1) / ROWS_PER_TRANSITION, (n - 1) % ROWS_PER_TRANSITION);
    }
  }

  lemma {:induction false} HeightAlike(a: seq<seq<Transition>>, b: seq<seq<Transition>>)
    requires |a| == |b| && forall k :: 0 <= k < |a| ==> PrintAlike(a[k], b[k])
    ensures Height(a) == Height(b)
  {
    hide PrintAlike;
    if a != [] {
      HeightAlike(a[..|a|-1], b[..|b|-1]);
      AlikeFound(a[|a|-1], b[|b|-1]);
    }
  }

  /** The block does not depend on the contexts of nodes in which nothing changed. */
  lemma SeparatorIgnoresStill(
    keys: seq<string>, older: map<string, LogCtx>, newer: map<string, LogCtx>, logCtxs: map<string, LogCtx>)
    requires forall node :: node in keys ==>
      || (node in older && node in newer && older[node] == newer[node])
      || (Still(node, older, logCtxs) && Still(node, newer, logCtxs))
    ensures Separator(keys, older, logCtxs) == Separator(keys, newer, logCtxs)
  {
    hide Height, Block, Found, Still, Stacks;
    var a, b := Columns(keys, older, logCtxs), Columns(keys, newer, logCtxs);
    forall k | 0 <= k < |keys|
      ensures PrintAlike(a[k], b[k])
    {
      assert keys[k] in keys;
      if Still(keys[k], older, logCtxs) && Still(keys[k], newer, logCtxs) {
        StillIsBlank(keys[k], older, logCtxs);
        StillIsBlank(keys[k], newer, logCtxs);
      }
    }
    HeightAlike(a, b);
    HeightFits(keys, older, logCtxs);
    HeightFits(keys, newer, logCtxs);
    StacksAlike(a, b, Height(a));
    BlockAlike(Stacks(a, Height(a)), Stacks(b, Height(b)), Height(a), Height(a) * ROWS_PER_TRANSITION);
  }

  // ---------- what the block shows ----------

  /** Four cells, from top to bottom: what was, what it is, an arrow, what it has become. */
  function Change(was: string, kind: string, became: string): seq<seq<string>> {
    if was == became then [] else [[was, "(" + kind + ")", " V ", became]]
  }

  function LastChange(older: seq<string>, kind: string, newer: seq<string>): seq<seq<string>> {
    if older == [] || newer == [] then [] else Change(older[|older|-1], kind, newer[|newer|-1])
  }

  /** What changed between two contexts. */
  function Changes(older: LogCtx, newer: LogCtx): seq<seq<string>> {
    Change(older.filePath, "file path", newer.filePath)
    + LastChange(older.ownNames, "node name", newer.ownNames)
    + LastChange(older.ownIPs, "node ip", newer.ownIPs)
    + if older.version == "" || newer.version == "" then [] else Change(older.version, "version", newer.version)
  }

  function NodeChanges(node: string, older: map<string, LogCtx>, newer: map<string, LogCtx>): seq<seq<string>> {
    if node in older && node in newer then Changes(older[node], newer[node]) else []
  }

  const PLACEHOLDER: seq<string> := ["", "", "", ""]

  /** The groups of four cells in a column that are no placeholders. */
  function NoPlaceholders(column: seq<seq<string>>): seq<seq<string>> {
    if column == [] then []
    else
      var n := |column| - 1;
      NoPlaceholders(column[..n]) + if column[n] == PLACEHOLDER then [] else [column[n]]
  }

  /** A grid of `height` groups of four cells in each column. */
  ghost predicate IsGrid(grid: seq<seq<seq<string>>>, height: nat) {
    forall k :: 0 <= k < |grid| ==> IsGridColumn(grid[k], height)
  }

  ghost predicate IsGridColumn(column: seq<seq<string>>, height: nat) {
    |column| == height && forall i :: 0 <= i < height ==> |column[i]| == 4
  }

  /** One row of cells, each followed by a tab. */
  function GridLine(grid: seq<seq<seq<string>>>, height: nat, row: nat): string
    requires IsGrid(grid, height) && row < 4 * height
  {
    if grid == [] then ""
    else GridLine(grid[..|grid|-1], height, row) + grid[|grid|-1][row / 4][row % 4] + "\t"
  }

  /** The first `n` rows, each after the empty cell of the date, with a line end between one and the next. */
  function Rendered(grid: seq<seq<seq<string>>>, height: nat, n: nat): string
    requires IsGrid(grid, height) && n <= 4 * height
  {
    if n == 0 then ""
    else Rendered(grid, height, n - 1) + (if n == 1 then "" else "\n") + "\t" + GridLine(grid, height, n - 1)
  }

  /**
    A text is the grid in which every column shows, apart from placeholders, what changed in its node, each
    change once and in order; one column has no placeholder, so no grid could be lower.
   */
  ghost predicate ShowsChanges(out: string, keys: seq<string>, older: map<string, LogCtx>, newer: map<string, LogCtx>) {
    exists grid, height: nat ::
      && IsGrid(grid, height) && |grid| == |keys| && out == Rendered(grid, height, 4 * height)
      && (forall k :: 0 <= k < |keys| ==> NoPlaceholders(grid[k]) == NodeChanges(keys[k], older, newer))
      && (height == 0 || exists k :: 0 <= k < |keys| && |NodeChanges(keys[k], older, newer)| == height)
  }

  /** The cells of transitions, without the tabs that close them. */
  function Cells(t: Transition): (cells: seq<string>)
    ensures |cells| == 4
  {
    if t.ok then [t.s1, "(" + t.changeType + ")", " V ", t.s2] else PLACEHOLDER
  }

  function AllCells(tests: seq<Transition>): (r: seq<seq<string>>)
    ensures |r| == |tests| && forall i :: 0 <= i < |tests| ==> r[i] == Cells(tests[i])
  {
    seq(|tests|, i requires 0 <= i < |tests| => Cells(tests[i]))
  }

  /** The summary of a transition has its cells, each closed by a tab. */
  ghost predicate HasCells(t: Transition) {
    |t.summary| == ROWS_PER_TRANSITION
    && forall row :: 0 <= row < ROWS_PER_TRANSITION ==> t.summary[row] == Cells(t)[row] + "\t"
  }

  lemma {:induction false} FoundCells(tests: seq<Transition>)
    ensures NoPlaceholders(AllCells(tests)) == AllCells(Found(tests))
  {
    if tests != [] {
      var n := |tests| - 1;
      FoundCells(tests[..n]);
      assert AllCells(tests)[..n] == AllCells(tests[..n]);
      assert AllCells(tests)[n] == Cells(tests[n]);
      assert tests[n].ok ==> Cells(tests[n])[2] == " V ";
    }
  }

  /** What one test finds, and what several find together. */
  function CellsFound(tests: seq<Transition>): seq<seq<string>> {
    AllCells(Found(Summarized(tests)))
  }

  lemma CellsFoundConcat(a: seq<Transition>, b: seq<Transition>)
    ensures CellsFound(a + b) == CellsFound(a) + CellsFound(b)
  {
    assert Summarized(a + b) == Summarized(a) + Summarized(b);
    FoundConcat(Summarized(a), Summarized(b));
  }

  lemma NoTestsFindNothing(tests: seq<Transition>)
    requires tests == []
    ensures CellsFound(tests) == []
  {
  }

  lemma OneTestFinds(s1: string, s2: string, changeType: string)
    ensures CellsFound([NewTransition(s1, s2, changeType)]) == Change(s1, changeType, s2)
  {
    var r := Summarized([NewTransition(s1, s2, changeType)]);
    assert r[..0] == [] && Found(r[..0]) == [];
    assert |r| == 1 && r[0] == NewTransition(s1, s2, changeType).SummarizedIfDifferent();
    assert Found(r) == if r[0].ok then [r[0]] else [];
  }

  lemma {:induction false} FillingFindsNothing(tests: seq<Transition>)
    ensures CellsFound(Filled(tests)) == CellsFound(tests)
    decreases NUMBER_OF_POSSIBLE_TRANSITION - |tests|
  {
    hide CellsFound;
    if |tests| < NUMBER_OF_POSSIBLE_TRANSITION {
      FillingFindsNothing(tests + [NewTransition("", "", "")]);
      CellsFoundConcat(tests, [NewTransition("", "", "")]);
      OneTestFinds("", "", "");
    }
  }

  lemma TestsFindChanges(older: LogCtx, newer: LogCtx)
    ensures CellsFound(Tests(older, newer)) == Changes(older, newer)
  {
    hide CellsFound, Change;
    var path := [NewTransition(older.filePath, newer.filePath, "file path")];
    var name := LastTest(older.ownNames, newer.ownNames, "node name");
    var ip := LastTest(older.ownIPs, newer.ownIPs, "node ip");
    var version: seq<Transition> :=
      if older.version != "" && newer.version != "" then [NewTransition(older.version, newer.version, "version")]
      else [];
    OneTestFinds(older.filePath, newer.filePath, "file path");
    LastTestFinds(older.ownNames, newer.ownNames, "node name");
    LastTestFinds(older.ownIPs, newer.ownIPs, "node ip");
    NoTestsFindNothing([]);
    OneTestFinds(older.version, newer.version, "version");
    CellsFoundConcat(path, name);
    CellsFoundConcat(path + name, ip);
    CellsFoundConcat(path + name + ip, version);
    assert Tests(older, newer) == path + name + ip + version;
  }

  function LastTest(older: seq<string>, newer: seq<string>, kind: string): seq<Transition> {
    if older != [] && newer != [] then [NewTransition(older[|older|-1], newer[|newer|-1], kind)] else []
  }

  lemma LastTestFinds(older: seq<string>, newer: seq<string>, kind: string)
    ensures CellsFound(LastTest(older, newer, kind)) == LastChange(older, kind, newer)
  {
    hide CellsFound;
    NoTestsFindNothing([]);
    if older != [] && newer != [] {
      OneTestFinds(older[|older|-1], newer[|newer|-1], kind);
    }
  }

  /** A column finds what changed in its node, and all its transitions are summarized by their cells. */
  lemma ColumnFindsChanges(node: string, older: map<string, LogCtx>, newer: map<string, LogCtx>)
    ensures AllCells(Found(ColumnTests(node, older, newer))) == NodeChanges(node, older, newer)
    ensures forall t :: t in ColumnTests(node, older, newer) ==> HasCells(t)
  {
    hide Changes, AllCells, Found, Filled, Tests;
    var tests := if node in newer && node in older then Tests(older[node], newer[node]) else [];
    ColumnIs(node, older, newer);
    FillingFindsNothing(tests);
    if node in newer && node in older {
      TestsFindChanges(older[node], newer[node]);
    } else {
      NoTestsFindNothing(tests);
    }
    TestsNew(node, older, newer);
    FilledNew(tests);
    SummarizedHasCells(Filled(tests));
  }

  lemma ColumnIs(node: string, older: map<string, LogCtx>, newer: map<string, LogCtx>)
    ensures ColumnTests(node, older, newer) ==
      Summarized(Filled(if node in newer && node in older then Tests(older[node], newer[node]) else []))
  {
  }

  ghost predicate AreNew(tests: seq<Transition>) {
    forall t :: t in tests ==> !t.ok && t.summary == PLACEHOLDER
  }

  lemma TestsNew(node: string, older: map<string, LogCtx>, newer: map<string, LogCtx>)
    ensures AreNew(if node in newer && node in older then Tests(older[node], newer[node]) else [])
  {
  }

  lemma {:induction false} FilledNew(tests: seq<Transition>)
    requires AreNew(tests)
    ensures AreNew(Filled(tests))
    decreases NUMBER_OF_POSSIBLE_TRANSITION - |tests|
  {
    if |tests| < NUMBER_OF_POSSIBLE_TRANSITION {
      FilledNew(tests + [NewTransition("", "", "")]);
    }
  }

  lemma SummarizedHasCells(tests: seq<Transition>)
    requires AreNew(tests)
    ensures forall t :: t in Summarized(tests) ==> HasCells(t)
  {
    forall i | 0 <= i < |tests|
      ensures HasCells(tests[i].SummarizedIfDifferent())
    {
      assert tests[i] in tests;
    }
  }

  /** The grid of stacks. */
  function Grid(stacks: seq<seq<Transition>>): (grid: seq<seq<seq<string>>>)
    ensures |grid| == |stacks| && forall k :: 0 <= k < |stacks| ==> grid[k] == AllCells(stacks[k])
  {
    seq(|stacks|, k requires 0 <= k < |stacks| => AllCells(stacks[k]))
  }

  ghost predicate StacksHaveCells(stacks: seq<seq<Transition>>, height: nat) {
    AreStacks(stacks, height) && forall k, i :: 0 <= k < |stacks| && 0 <= i < height ==> HasCells(stacks[k][i])
  }

  lemma {:induction false} LineIsGridLine(stacks: seq<seq<Transition>>, height: nat, n: nat)
    requires StacksHaveCells(stacks, height) && n < height * 4
    ensures AreStacks(stacks, height) && IsGrid(Grid(stacks), height)
    ensures Line(stacks, n / 4, n % 4) == GridLine(Grid(stacks), height, n)
  {
    hide IsStack, IsGridColumn, HasCells, Cells;
    HaveShape(stacks, height);
    InStacks(stacks, height, n);
    if stacks != [] {
      var before := stacks[..|stacks|-1];
      LineIsGridLine(before, height, n);
      InStacks(before, height, n);
      assert Grid(stacks)[..|stacks|-1] == Grid(before);
      CellIsClosed(stacks, height, n);
    }
  }

  lemma InStacks(stacks: seq<seq<Transition>>, height: nat, n: nat)
    requires AreStacks(stacks, height) && n < height * 4
    ensures forall k :: 0 <= k < |stacks| ==> n / 4 < |stacks[k]| && n % 4 < |stacks[k][n / 4].summary|
  {
  }

  lemma CellIsClosed(stacks: seq<seq<Transition>>, height: nat, n: nat)
    requires StacksHaveCells(stacks, height) && n < height * 4 && stacks != []
    ensures var k := |stacks| - 1;
      && |stacks[k]| == height && |stacks[k][n / 4].summary| == 4
      && |Grid(stacks)[k]| == height && |Grid(stacks)[k][n / 4]| == 4
      && stacks[k][n / 4].summary[n % 4] == Grid(stacks)[k][n / 4][n % 4] + "\t"
  {
    var k := |stacks| - 1;
    assert IsStack(stacks[k], height);
    assert HasCells(stacks[k][n / 4]);
  }

  lemma GridShape(stacks: seq<seq<Transition>>, height: nat)
    requires AreStacks(stacks, height)
    ensures IsGrid(Grid(stacks), height)
  {
  }

  lemma {:induction false} BlockIsRendered(stacks: seq<seq<Transition>>, height: nat, n: nat)
    requires StacksHaveCells(stacks, height) && n <= height * ROWS_PER_TRANSITION && 0 < height
    ensures IsGrid(Grid(stacks), height)
    ensures Block(stacks, height, n) == Rendered(Grid(stacks), height, n)
      + if n == height * ROWS_PER_TRANSITION then "" else if n == 0 then "\t" else "\n\t"
  {
    hide Line, GridLine, StacksHaveCells;
    HaveShape(stacks, height);
    if n > 0 {
      BlockIsRendered(stacks, height, n - 1);
      LineIsGridLine(stacks, height, n - 1);
    }
  }

  lemma HaveShape(stacks: seq<seq<Transition>>, height: nat)
    requires StacksHaveCells(stacks, height)
    ensures AreStacks(stacks, height) && IsGrid(Grid(stacks), height)
  {
    GridShape(stacks, height);
  }

  lemma {:induction false} HeightReached(columns: seq<seq<Transition>>)
    requires Height(columns) > 0
    ensures exists k :: 0 <= k < |columns| && |Found(columns[k])| == Height(columns)
  {
    var n := |columns| - 1;
    if |Found(columns[n])| < Height(columns) {
      HeightReached(columns[..n]);
      var k :| 0 <= k < n && |Found(columns[..n][k])| == Height(columns[..n]);
      assert columns[..n][k] == columns[k];
    }
  }

  /** The block shows what changed in every node, the older value above the newer one. */
  lemma SeparatorShowsChanges(keys: seq<string>, older: map<string, LogCtx>, newer: map<string, LogCtx>)
    ensures ShowsChanges(Separator(keys, older, newer), keys, older, newer)
  {
    hide Found, Height, Block, ColumnTests, Stack, Stacks, NodeChanges, Rendered, HasCells;
    var columns := Columns(keys, older, newer);
    var height := Height(columns);
    HeightFits(keys, older, newer);
    var stacks := Stacks(columns, height);
    var grid := Grid(stacks);
    forall k | 0 <= k < |keys|
      ensures NoPlaceholders(grid[k]) == NodeChanges(keys[k], older, newer)
      ensures |NodeChanges(keys[k], older, newer)| == |Found(columns[k])|
      ensures forall i :: 0 <= i < height ==> HasCells(stacks[k][i])
    {
      ColumnFindsChanges(keys[k], older, newer);
      StackShowsFound(columns[k], height);
      FoundCells(stacks[k]);
      StackAmong(columns[k], height);
    }
    GridShape(stacks, height);
    if height > 0 {
      BlockIsRendered(stacks, height, height * ROWS_PER_TRANSITION);
      HeightReached(columns);
    } else {
      NothingRendered(grid, height);
    }
  }

  lemma NothingRendered(grid: seq<seq<seq<string>>>, height: nat)
    requires IsGrid(grid, height)
    ensures Rendered(grid, height, 0) == ""
  {
  }

  // ---------- the columnar shape ----------

  function Tabs(s: string): nat {
    if s == "" then 0 else Tabs(s[..|s|-1]) + if s[|s|-1] == '\t' then 1 else 0
  }

  lemma {:induction false} TabsConcat(a: string, b: string)
    ensures Tabs(a + b) == Tabs(a) + Tabs(b)
  {
    if b == "" {
      assert a + b == a;
    } else {
      TabsConcat(a, b[..|b|-1]);
      assert (a + b)[..|a + b|-1] == a + b[..|b|-1];
    }
  }

  lemma {:induction false} NoTabs(s: string)
    requires '\t' !in s
    ensures Tabs(s) == 0
  {
    if s != "" {
      NoTabs(s[..|s|-1]);
    }
  }

  /** Texts without tabs make cells that are closed by exactly one tab. */
  lemma CellsClose(t: Transition, row: nat)
    requires t.summary == ["", "", "", ""] && row < ROWS_PER_TRANSITION
    requires '\t' !in t.s1 && '\t' !in t.s2 && '\t' !in t.changeType
    ensures Tabs(t.SummarizedIfDifferent().summary[row]) == 1
  {
    var texts := if t.s1 != t.s2 then [t.s1, "(" + t.changeType + ")", " V ", t.s2] else ["", "", "", ""];
    assert t.SummarizedIfDifferent().summary[row] == texts[row] + "\t";
    TabsConcat(texts[row], "\t");
    NoTabs(texts[row]);
    assert "\t"[..0] == "";
  }

  /** Every row of the block has one cell per column, so the columns stay aligned. */
  lemma {:induction false} LineAligned(stacks: seq<seq<Transition>>, i: nat, row: nat)
    requires forall k :: 0 <= k < |stacks| ==> i < |stacks[k]| && row < |stacks[k][i].summary|
    requires forall k :: 0 <= k < |stacks| ==> Tabs(stacks[k][i].summary[row]) == 1
    ensures Tabs(Line(stacks, i, row)) == |stacks|
  {
    if stacks != [] {
      LineAligned(stacks[..|stacks|-1], i, row);
      TabsConcat(Line(stacks[..|stacks|-1], i, row), stacks[|stacks|-1][i].summary[row]);
    }
  }

  predicate NoTab(s: string) {
    '\t' !in s
  }

  /** What is compared of a context has no tabs. */
  ghost predicate IsTabFree(logCtx: LogCtx) {
    && NoTab(logCtx.filePath) && NoTab(logCtx.version)
    && (forall name :: name in logCtx.ownNames ==> NoTab(name))
    && (forall ip :: ip in logCtx.ownIPs ==> NoTab(ip))
  }

  /** A test not yet resolved, between texts without tabs. */
  ghost predicate IsPlain(t: Transition) {
    t.summary == ["", "", "", ""] && NoTab(t.s1) && NoTab(t.s2) && NoTab(t.changeType)
  }

  lemma TestsPlain(before: LogCtx, after: LogCtx)
    requires IsTabFree(before) && IsTabFree(after)
    ensures forall t :: t in Tests(before, after) ==> IsPlain(t)
  {
  }

  lemma {:induction false} FilledPlain(tests: seq<Transition>)
    requires forall t :: t in tests ==> IsPlain(t)
    ensures forall t :: t in Filled(tests) ==> IsPlain(t)
    decreases NUMBER_OF_POSSIBLE_TRANSITION - |tests|
  {
    if |tests| < NUMBER_OF_POSSIBLE_TRANSITION {
      FilledPlain(tests + [NewTransition("", "", "")]);
    }
  }

  /** Every cell is closed by one tab. */
  ghost predicate IsClosed(t: Transition) {
    |t.summary| == ROWS_PER_TRANSITION && forall row :: 0 <= row < ROWS_PER_TRANSITION ==> Tabs(t.summary[row]) == 1
  }

  lemma ColumnClosed(node: string, oldlogCtxs: map<string, LogCtx>, logCtxs: map<string, LogCtx>)
    requires node in logCtxs && node in oldlogCtxs ==> IsTabFree(oldlogCtxs[node]) && IsTabFree(logCtxs[node])
    ensures forall t :: t in ColumnTests(node, oldlogCtxs, logCtxs) ==> IsClosed(t)
  {
    hide Filled, Tests, IsTabFree, Tabs;
    var tests := if node in logCtxs && node in oldlogCtxs then Tests(oldlogCtxs[node], logCtxs[node]) else [];
    if node in logCtxs && node in oldlogCtxs {
      TestsPlain(oldlogCtxs[node], logCtxs[node]);
    }
    FilledPlain(tests);
    var filled := Filled(tests);
    forall i | 0 <= i < |filled|
      ensures IsClosed(filled[i].SummarizedIfDifferent())
    {
      assert filled[i] in filled;
      forall row | 0 <= row < ROWS_PER_TRANSITION
        ensures Tabs(filled[i].SummarizedIfDifferent().summary[row]) == 1
      {
        CellsClose(filled[i], row);
      }
    }
  }

  lemma StackAmong(tests: seq<Transition>, height: nat)
    requires |Found(tests)| <= height <= |tests|
    ensures forall t :: t in Stack(tests, height) ==> t in tests
  {
    FoundAmong(tests[..Pivot(tests, height, 0)]);
  }

  /** The contexts that are compared have no tabs in what is compared. */
  ghost predicate AllTabFree(keys: seq<string>, oldlogCtxs: map<string, LogCtx>, logCtxs: map<string, LogCtx>) {
    forall node :: node in keys && node in logCtxs && node in oldlogCtxs ==>
      IsTabFree(oldlogCtxs[node]) && IsTabFree(logCtxs[node])
  }

  ghost predicate AllClosed(stacks: seq<seq<Transition>>, height: nat) {
    AreStacks(stacks, height) && forall k, i :: 0 <= k < |stacks| && 0 <= i < height ==> IsClosed(stacks[k][i])
  }

  lemma StacksClosed(keys: seq<string>, oldlogCtxs: map<string, LogCtx>, logCtxs: map<string, LogCtx>)
    requires AllTabFree(keys, oldlogCtxs, logCtxs)
    ensures var columns := Columns(keys, oldlogCtxs, logCtxs);
      Fit(columns, Height(columns)) && AllClosed(Stacks(columns, Height(columns)), Height(columns))
  {
    hide Found, Stack, ColumnTests, Height, IsTabFree, IsClosed;
    var columns := Columns(keys, oldlogCtxs, logCtxs);
    var height := Height(columns);
    HeightFits(keys, oldlogCtxs, logCtxs);
    forall k, i | 0 <= k < |keys| && 0 <= i < height
      ensures IsClosed(Stacks(columns, height)[k][i])
    {
      assert keys[k] in keys;
      ColumnClosed(keys[k], oldlogCtxs, logCtxs);
      StackAmong(columns[k], height);
      var stack := Stacks(columns, height)[k];
      assert IsStack(stack, height) && stack == Stack(columns[k], height);
      assert stack[i] in stack;
    }
  }

  /**
    Every row of the block has one cell for each column, after the cell of the date, if the texts that are
    compared have no tabs: the columns stay aligned.
   */
  lemma BlockAligned(keys: seq<string>, oldlogCtxs: map<string, LogCtx>, logCtxs: map<string, LogCtx>)
    requires AllTabFree(keys, oldlogCtxs, logCtxs)
    ensures var columns := Columns(keys, oldlogCtxs, logCtxs); var height := Height(columns);
      && Fit(columns, height)
      && (forall i, row :: 0 <= i < height && 0 <= row < ROWS_PER_TRANSITION ==>
           Tabs(Line(Stacks(columns, height), i, row)) == |keys|)
      && Tabs(Separator(keys, oldlogCtxs, logCtxs)) == height * ROWS_PER_TRANSITION * (|keys| + 1)
  {
    hide Found, Height, Block, ColumnTests, Tabs, Line, Stacks;
    var columns := Columns(keys, oldlogCtxs, logCtxs);
    var height := Height(columns);
    StacksClosed(keys, oldlogCtxs, logCtxs);
    var stacks := Stacks(columns, height);
    forall i, row | 0 <= i < height && 0 <= row < ROWS_PER_TRANSITION
      ensures Tabs(Line(stacks, i, row)) == |keys|
    {
      LineAligned(stacks, i, row);
    }
    if height == 0 {
      NoTabs("");
    } else {
      BlockTabs(stacks, height, height * ROWS_PER_TRANSITION);
    }
  }

  lemma {:induction false} BlockTabs(stacks: seq<seq<Transition>>, height: nat, n: nat)
    requires AllClosed(stacks, height) && 0 < height && n <= height * ROWS_PER_TRANSITION
    ensures Tabs(Block(stacks, height, n)) ==
      n * (|stacks| + 1) + if n == height * ROWS_PER_TRANSITION then 0 else 1
  {
    hide Tabs, Line;
    if n == 0 {
      TabAlone();
    } else {
      var i, row := (n - 1) / ROWS_PER_TRANSITION, (n - 1) % ROWS_PER_TRANSITION;
      var before, line := Block(stacks, height, n - 1), Line(stacks, i, row);
      BlockTabs(stacks, height, n - 1);
      LineAligned(stacks, i, row);
      TabsConcat(before, line);
      TabAlone();
      if n == height * ROWS_PER_TRANSITION {
        assert before + line + "" == before + line;
      } else {
        TabsConcat(before + line, "\n\t");
      }
      assert n * (|stacks| + 1) == (n - 1) * (|stacks| + 1) + |stacks| + 1;
    }
  }

  lemma TabAlone()
    ensures Tabs("\t") == 1 && Tabs("\n\t") == 1
  {
    assert "\t"[..0] == "" && "\n\t"[..1] == "\n" && "\n"[..0] == "";
    assert Tabs("\n") == 0;
  }
}
