/** Printing the timelines of all nodes in one chronological table (timelinecli.go, timeline.go). */
module TimelineDisplay {
  import opened Translations
  import opened LogEvents
  import opened Ordering
  import opened TimelineMerge
  import opened TransitionGrid

  /** `time.Unix(math.MaxInt32, 0)`, in nanoseconds since the zero time. */
  const SENTINEL: Time := (62135596800 + 0x7FFF_FFFF) * 1_000_000_000

  /** The days from the first of January of year 1 to that of `year`, in the calendar extended backwards. */
  function DaysBefore(year: nat): nat
    requires year > 0
  {
    var n := year - 1;
    365 * n + n / 4 - n / 100 + n / 400
  }

  /** From the zero time, the first of January of year 1, the sentinel is 03:14:07 on the 19th of January 2038. */
  lemma SentinelIs()
    ensures SENTINEL - ZERO_TIME == ((((DaysBefore(2038) + 18) * 24 + 3) * 60 + 14) * 60 + 7) * 1_000_000_000
  {
  }

  /**
    One line of the table: its date column, the event printed for each node that has one, and the block
    of transitions printed above it.
   */
  datatype Row = Row(date: Option<Time>, cells: map<string, LogInfo>, separator: string)

  /** `node` has events left and none of the others is due before it, nor the sentinel. */
  ghost predicate IsDue(nodes: map<string, seq<LogInfo>>, node: string) {
    && node in nodes && nodes[node] != [] && FirstTime(nodes[node]) <= SENTINEL
    && forall other :: other in nodes && nodes[other] != [] ==> FirstTime(nodes[node]) <= FirstTime(nodes[other])
  }

  class Timeline {
    var nodes: map<string, seq<LogInfo>>

    constructor (nodes: map<string, seq<LogInfo>>)
      ensures this.nodes == nodes
    {
      this.nodes := nodes;
    }

    /** The nodes with the next events, in any order of the map. */
    method IterateNode() returns (nextNodes: seq<string>)
      ensures forall node :: node in nextNodes <==> IsDue(nodes, node)
    {
      var nextDate := SENTINEL;
      nextNodes := [];
      var todo := nodes.Keys;
      while todo != {}
        invariant todo <= nodes.Keys
        invariant nextDate <= SENTINEL && (nextNodes == [] ==> nextDate == SENTINEL)
        invariant forall node :: node in nodes && node !in todo && nodes[node] != [] ==>
          nextDate <= FirstTime(nodes[node])
        invariant forall node :: node in nextNodes <==>
          node in nodes && node !in todo && nodes[node] != [] && FirstTime(nodes[node]) == nextDate
        decreases todo
      {
        var node :| node in todo;
        todo := todo - {node};
        if |nodes[node]| == 0 {
          continue;
        }
        var curDate := GetFirstTime(nodes[node]);
        if curDate < nextDate {
          nextDate := curDate;
          nextNodes := [node];
        } else if curDate == nextDate {
          nextNodes := nextNodes + [node];
        }
      }
      assert nextNodes != [] ==> nextNodes[0] in nextNodes;
    }

    /** Drops the next event of a node; a node that is unknown or has no events is left alone. */
    method Dequeue(node: string)
      modifies this
      ensures nodes ==
        if node in old(nodes) && old(nodes)[node] != [] then old(nodes)[node := old(nodes)[node][1..]] else old(nodes)
    {
      if node in nodes && |nodes[node]| > 0 {
        nodes := nodes[node := nodes[node][1..]];
      }
    }

    /**
      The loop that prints the table, over columns in the order of their names: as long as some node is
      due, a row with the next event of every node that is due, below a block of what it changes.
     */
    method Display() returns (keys: seq<string>, rows: seq<Row>)
      modifies this
      ensures Distinct(keys) && SortedStrings(keys) && forall node :: node in keys <==> node in old(nodes)
      ensures nodes.Keys == old(nodes.Keys)
      ensures Conserved(old(nodes), rows, nodes)
      ensures forall node :: node in nodes ==> (nodes[node] == [] <==> !HasLate(old(nodes)[node]))
      ensures AllChronological(old(nodes)) ==> IsTable(rows)
      ensures SeparatorsShowChanges(keys, old(nodes), rows)
    {
      hide IsDue, Printing, AllChronological, IsTable, Conserved, HasLate, IsStep, Left;
      hide SeparatorsShowChanges, Following, FollowsRow;
      rows := [];
      var currentContext;
      keys, currentContext := InitKeysContext();
      var lastContext: map<string, LogCtx> := map[];
      var nextNodes := IterateNode();
      StartPrinting(nodes);
      StartFollowing(keys, nodes, currentContext);
      while |nextNodes| != 0
        invariant nodes.Keys == old(nodes.Keys)
        invariant forall node :: node in nextNodes <==> IsDue(nodes, node)
        invariant Printing(old(nodes), rows, nodes)
        invariant currentContext.Keys == nodes.Keys
        invariant Following(keys, old(nodes), rows, currentContext, lastContext)
        decreases Left(nodes, keys)
      {
        ghost var before := nodes;
        DueHaveEvents(nodes);
        var row, current, last := PrintRow(keys, nextNodes, currentContext, lastContext);
        assert nextNodes[0] in keys && nextNodes[0] in nextNodes;
        LeftFalls(before, nodes, keys, row, nextNodes[0]);
        PrintStep(old(nodes), rows, before, row, nodes, nextNodes[0]);
        FollowStep(keys, old(nodes), rows, row, currentContext, lastContext, current, last);
        rows := rows + [row];
        currentContext, lastContext := current, last;
        nextNodes := IterateNode();
      }
      EndPrinting(old(nodes), rows, nodes);
      EndFollowing(keys, old(nodes), rows, currentContext, lastContext);
    }

    /** The columns, and the contexts to start with: those of the first events. */
    method InitKeysContext() returns (keys: seq<string>, currentContext: map<string, LogCtx>)
      ensures Distinct(keys) && SortedStrings(keys) && forall node :: node in keys <==> node in nodes
      ensures currentContext == Contexts(nodes, [])
    {
      keys, currentContext := [], map[];
      var todo := nodes.Keys;
      while todo != {}
        invariant todo <= nodes.Keys && Distinct(keys)
        invariant forall node :: node in keys <==> node in nodes && node !in todo
        invariant currentContext.Keys == nodes.Keys - todo
        invariant forall node :: node in currentContext ==> currentContext[node] == ContextAt(nodes, [], node)
        decreases todo
      {
        var node :| node in todo;
        todo := todo - {node};
        keys := keys + [node];
        currentContext := currentContext[node := if |nodes[node]| > 0 then nodes[node][0].logCtx else NEW_LOG_CTX];
      }
      var sorted := SortStrings(keys);
      StillDistinct(keys, sorted);
      SameMembers(keys, sorted);
      keys := sorted;
    }

    /** One row, and the block above it: dequeues the next event of every node in `nextNodes`. */
    method PrintRow(
      keys: seq<string>, nextNodes: seq<string>, currentContext: map<string, LogCtx>, lastContext: map<string, LogCtx>)
      returns (row: Row, current: map<string, LogCtx>, last: map<string, LogCtx>)
      requires forall node :: node in keys <==> node in nodes
      requires Distinct(keys)
      requires nextNodes != [] && forall node :: node in nextNodes ==> node in nodes && nodes[node] != []
      requires currentContext.Keys == nodes.Keys
      modifies this
      ensures nodes.Keys == old(nodes.Keys) && row.cells.Keys <= nodes.Keys
      ensures IsStep(old(nodes), row, nodes)
      ensures forall node :: node in row.cells <==> node in nextNodes
      ensures nextNodes[0] in row.cells && row.date == row.cells[nextNodes[0]].date
      ensures current.Keys == nodes.Keys && FollowsRow(keys, row, currentContext, lastContext, current, last)
    {
      hide Separator, TakenFrom, LeftBy, ShowsChanges, FirstTime;
      var date := nodes[nextNodes[0]][0].date;
      var cells: map<string, LogInfo>;
      cells, current, last := TakeCells(keys, nextNodes, currentContext, lastContext);
      assert nextNodes[0] in nextNodes;
      TakenKeys(currentContext, cells);
      var sep := TransitionSeparator(keys, last, current);
      if sep != "" {
        last := map k | k in current :: current[k];
      }
      row := Row(date, cells, sep);
    }

    /** The cells of one row, and the contexts before and after them. */
    method TakeCells(
      keys: seq<string>, nextNodes: seq<string>, currentContext: map<string, LogCtx>, lastContext: map<string, LogCtx>)
      returns (cells: map<string, LogInfo>, current: map<string, LogCtx>, last: map<string, LogCtx>)
      requires forall node :: node in keys <==> node in nodes
      requires Distinct(keys)
      requires forall node :: node in nextNodes ==> node in nodes && nodes[node] != []
      requires currentContext.Keys == nodes.Keys
      modifies this
      ensures nodes.Keys == old(nodes.Keys)
      ensures forall node :: node in cells <==> node in nextNodes
      ensures forall node :: node in nodes ==>
        if node in cells then old(nodes[node]) == [cells[node]] + nodes[node] else nodes[node] == old(nodes[node])
      ensures current == TakenFrom(currentContext, cells) && last == LeftBy(lastContext, currentContext, cells)
    {
      hide TakenFrom, LeftBy, TakesUpTo;
      ghost var before := nodes;
      cells, current, last := map[], currentContext, lastContext;
      NoCells(currentContext, lastContext);
      TakesNone(keys, nextNodes, before);
      for i := 0 to |keys|
        invariant TakesUpTo(keys, i, nextNodes, before, nodes, cells)
        invariant current == TakenFrom(currentContext, cells) && last == LeftBy(lastContext, currentContext, cells)
      {
        var node := keys[i];
        TakesStep(keys, i, nextNodes, before, nodes, cells);
        if node in nextNodes {
          var loginfo := nodes[node][0];
          OneCellMore(currentContext, lastContext, cells, node, loginfo);
          last := last[node := current[node]];
          current := current[node := loginfo.logCtx];
          cells := cells[node := loginfo];
          Dequeue(node);
        }
      }
      TakesAll(keys, nextNodes, before, nodes, cells);
    }
  }

  /** Of the first `i` columns, those of the next nodes have given their first event. */
  ghost predicate TakesUpTo(
    keys: seq<string>, i: nat, nextNodes: seq<string>,
    before: map<string, seq<LogInfo>>, left: map<string, seq<LogInfo>>, cells: map<string, LogInfo>)
  {
    && i <= |keys| && left.Keys == before.Keys
    && (forall node :: node in cells <==> node in keys[..i] && node in nextNodes)
    && forall node :: node in before ==>
      if node in cells then before[node] == [cells[node]] + left[node] else left[node] == before[node]
  }

  lemma TakesNone(keys: seq<string>, nextNodes: seq<string>, before: map<string, seq<LogInfo>>)
    ensures TakesUpTo(keys, 0, nextNodes, before, before, map[])
  {
  }

  lemma TakesStep(
    keys: seq<string>, i: nat, nextNodes: seq<string>,
    before: map<string, seq<LogInfo>>, left: map<string, seq<LogInfo>>, cells: map<string, LogInfo>)
    requires TakesUpTo(keys, i, nextNodes, before, left, cells) && i < |keys| && keys[i] in before
    requires Distinct(keys)
    requires forall node :: node in nextNodes ==> node in before && before[node] != []
    ensures keys[i] in left && keys[i] !in cells
    ensures if keys[i] in nextNodes
      then left[keys[i]] != [] && TakesUpTo(keys, i + 1, nextNodes, before,
        left[keys[i] := left[keys[i]][1..]], cells[keys[i] := left[keys[i]][0]])
      else TakesUpTo(keys, i + 1, nextNodes, before, left, cells)
  {
    assert keys[..i+1] == keys[..i] + [keys[i]];
    assert keys[i] !in keys[..i];
  }

  lemma TakesAll(
    keys: seq<string>, nextNodes: seq<string>,
    before: map<string, seq<LogInfo>>, left: map<string, seq<LogInfo>>, cells: map<string, LogInfo>)
    requires TakesUpTo(keys, |keys|, nextNodes, before, left, cells)
    ensures left.Keys == before.Keys
    ensures forall node :: node in cells <==> node in keys && node in nextNodes
    ensures forall node :: node in before ==>
      if node in cells then before[node] == [cells[node]] + left[node] else left[node] == before[node]
  {
    assert keys[..|keys|] == keys;
  }

  /** The context of a node of which nothing is known. */
  const NEW_LOG_CTX := LogCtx("", "", [], [], [], "", [])

  // ---------- the contexts of the nodes ----------

  /** The contexts after the events of one row. */
  function TakenFrom(current: map<string, LogCtx>, cells: map<string, LogInfo>): map<string, LogCtx> {
    current + LogCtxs(cells)
  }

  lemma TakenKeys(current: map<string, LogCtx>, cells: map<string, LogInfo>)
    ensures TakenFrom(current, cells).Keys == current.Keys + cells.Keys
  {
  }

  function LogCtxs(cells: map<string, LogInfo>): map<string, LogCtx> {
    map node | node in cells :: cells[node].logCtx
  }

  /** For the nodes of one row, the contexts before it. */
  function LeftBy(
    last: map<string, LogCtx>, current: map<string, LogCtx>, cells: map<string, LogInfo>): map<string, LogCtx>
  {
    last + Restricted(current, cells.Keys)
  }

  function Restricted(current: map<string, LogCtx>, nodes: set<string>): map<string, LogCtx> {
    map node | node in nodes && node in current :: current[node]
  }

  lemma NoCells(current: map<string, LogCtx>, last: map<string, LogCtx>)
    ensures TakenFrom(current, map[]) == current && LeftBy(last, current, map[]) == last
  {
  }

  lemma OneCellMore(
    current: map<string, LogCtx>, last: map<string, LogCtx>, cells: map<string, LogInfo>, node: string, li: LogInfo)
    requires node in current && node !in cells
    ensures node in TakenFrom(current, cells) && TakenFrom(current, cells)[node] == current[node]
    ensures TakenFrom(current, cells[node := li]) == TakenFrom(current, cells)[node := li.logCtx]
    ensures LeftBy(last, current, cells[node := li]) == LeftBy(last, current, cells)[node := current[node]]
  {
    hide LogCtxs, Restricted;
    OneCtxMore(current, cells, node, li);
    OneEntryMore(current, LogCtxs(cells), node, li.logCtx);
    OneEntryMore(last, Restricted(current, cells.Keys), node, current[node]);
  }

  lemma OneCtxMore(current: map<string, LogCtx>, cells: map<string, LogInfo>, node: string, li: LogInfo)
    requires node in current && node !in cells
    ensures LogCtxs(cells[node := li]) == LogCtxs(cells)[node := li.logCtx]
    ensures LogCtxs(cells).Keys == cells.Keys
    ensures Restricted(current, cells[node := li].Keys) == Restricted(current, cells.Keys)[node := current[node]]
  {
  }

  lemma OneEntryMore(base: map<string, LogCtx>, entries: map<string, LogCtx>, node: string, logCtx: LogCtx)
    ensures base + entries[node := logCtx] == (base + entries)[node := logCtx]
  {
  }

  /** The context of a node below some rows: that of its last event, or of its first if it has none there yet. */
  function ContextAt(start: map<string, seq<LogInfo>>, rows: seq<Row>, node: string): LogCtx
    requires node in start
  {
    var events := Column(rows, node);
    if events != [] then events[|events|-1].logCtx
    else if start[node] != [] then start[node][0].logCtx
    else NEW_LOG_CTX
  }

  function Contexts(start: map<string, seq<LogInfo>>, rows: seq<Row>): map<string, LogCtx> {
    map node | node in start :: ContextAt(start, rows, node)
  }

  /** Above every row stands the block that compares the contexts just above it with those just below. */
  ghost predicate SeparatorsShowChanges(keys: seq<string>, start: map<string, seq<LogInfo>>, rows: seq<Row>) {
    forall i :: 0 <= i < |rows| ==>
      SeparatorShows(rows[i].separator, keys, Contexts(start, rows[..i]), Contexts(start, rows[..i+1]))
  }

  /** The block of what changed, each change with the older value above the newer one. */
  ghost predicate SeparatorShows(
    separator: string, keys: seq<string>, older: map<string, LogCtx>, newer: map<string, LogCtx>)
  {
    separator == Separator(keys, older, newer) && ShowsChanges(separator, keys, older, newer)
  }

  /** What is remembered of the contexts when a row is printed. */
  ghost predicate FollowsRow(
    keys: seq<string>, row: Row, currentContext: map<string, LogCtx>, lastContext: map<string, LogCtx>,
    current: map<string, LogCtx>, last: map<string, LogCtx>)
  {
    var compared := LeftBy(lastContext, currentContext, row.cells);
    && current == TakenFrom(currentContext, row.cells)
    && row.separator == Separator(keys, compared, current)
    && last == if row.separator == "" then compared else current
  }

  /** The current contexts are those of the table, and none is remembered that would show a change again. */
  ghost predicate Following(
    keys: seq<string>, start: map<string, seq<LogInfo>>, rows: seq<Row>,
    currentContext: map<string, LogCtx>, lastContext: map<string, LogCtx>)
  {
    && currentContext == Contexts(start, rows)
    && (forall node :: node in keys ==> Still(node, lastContext, currentContext))
    && SeparatorsShowChanges(keys, start, rows)
  }

  lemma StartFollowing(keys: seq<string>, start: map<string, seq<LogInfo>>, currentContext: map<string, LogCtx>)
    requires currentContext == Contexts(start, [])
    ensures currentContext.Keys == start.Keys && Following(keys, start, [], currentContext, map[])
  {
  }

  lemma EndFollowing(
    keys: seq<string>, start: map<string, seq<LogInfo>>, rows: seq<Row>,
    currentContext: map<string, LogCtx>, lastContext: map<string, LogCtx>)
    requires Following(keys, start, rows, currentContext, lastContext)
    ensures SeparatorsShowChanges(keys, start, rows)
  {
  }

  lemma SameContextStill(node: string, older: map<string, LogCtx>, newer: map<string, LogCtx>)
    requires node in older && node in newer ==> older[node] == newer[node]
    ensures Still(node, older, newer)
  {
  }

  /** The contexts below one more row. */
  lemma ContextsStep(start: map<string, seq<LogInfo>>, rows: seq<Row>, row: Row)
    requires row.cells.Keys <= start.Keys
    ensures Contexts(start, rows + [row]) == TakenFrom(Contexts(start, rows), row.cells)
  {
    forall node | node in start
      ensures ContextAt(start, rows + [row], node) ==
        if node in row.cells then row.cells[node].logCtx else ContextAt(start, rows, node)
    {
      ColumnStep(rows, row, node);
    }
  }

  /** What is compared for the block shows what the contexts above and below the row would show. */
  lemma ComparedShows(
    keys: seq<string>, row: Row, currentContext: map<string, LogCtx>, lastContext: map<string, LogCtx>)
    requires row.cells.Keys <= currentContext.Keys
    requires forall node :: node in keys ==> Still(node, lastContext, currentContext)
    ensures var current := TakenFrom(currentContext, row.cells);
      Separator(keys, LeftBy(lastContext, currentContext, row.cells), current) ==
      Separator(keys, currentContext, current)
  {
    hide Separator;
    var current, compared := TakenFrom(currentContext, row.cells), LeftBy(lastContext, currentContext, row.cells);
    forall node | node in keys
      ensures
        || (node in compared && node in currentContext && compared[node] == currentContext[node])
        || (Still(node, compared, current) && Still(node, currentContext, current))
    {
      if node !in row.cells {
        SameContextStill(node, currentContext, current);
        assert Still(node, lastContext, currentContext);
      }
    }
    SeparatorIgnoresStill(keys, compared, currentContext, current);
  }

  lemma FollowStep(
    keys: seq<string>, start: map<string, seq<LogInfo>>, rows: seq<Row>, row: Row,
    currentContext: map<string, LogCtx>, lastContext: map<string, LogCtx>,
    current: map<string, LogCtx>, last: map<string, LogCtx>)
    requires Following(keys, start, rows, currentContext, lastContext)
    requires FollowsRow(keys, row, currentContext, lastContext, current, last)
    requires row.cells.Keys <= start.Keys
    ensures Following(keys, start, rows + [row], current, last)
  {
    hide Separator, Still, Contexts, TakenFrom, LeftBy;
    var compared := LeftBy(lastContext, currentContext, row.cells);
    ContextsOf(start, rows);
    ContextsStep(start, rows, row);
    ComparedShows(keys, row, currentContext, lastContext);
    SeparatorShowsChange(keys, compared, current);
    forall node | node in keys
      ensures Still(node, last, current)
    {
      SameContextStill(node, current, current);
    }
    MoreSeparators(keys, start, rows, row);
  }

  lemma ContextsOf(start: map<string, seq<LogInfo>>, rows: seq<Row>)
    ensures Contexts(start, rows).Keys == start.Keys
  {
  }

  lemma MoreSeparators(keys: seq<string>, start: map<string, seq<LogInfo>>, rows: seq<Row>, row: Row)
    requires SeparatorsShowChanges(keys, start, rows)
    requires row.separator == Separator(keys, Contexts(start, rows), Contexts(start, rows + [row]))
    ensures SeparatorsShowChanges(keys, start, rows + [row])
  {
    hide Separator, Contexts, ShowsChanges;
    SeparatorShowsChanges(keys, Contexts(start, rows), Contexts(start, rows + [row]));
    var more := rows + [row];
    forall i | 0 <= i < |more|
      ensures SeparatorShows(more[i].separator, keys, Contexts(start, more[..i]), Contexts(start, more[..i+1]))
    {
      if i < |rows| {
        assert more[..i] == rows[..i] && more[..i+1] == rows[..i+1];
      } else {
        assert more[..i] == rows && more[..i+1] == more;
      }
    }
  }

  // ---------- the order of the rows ----------

  /** `row` takes the first event of each of its nodes and nothing else. */
  ghost predicate IsStep(before: map<string, seq<LogInfo>>, row: Row, after: map<string, seq<LogInfo>>) {
    && after.Keys == before.Keys && row.cells.Keys <= before.Keys
    && forall node :: node in before ==>
      if node in row.cells
      then before[node] == [row.cells[node]] + after[node]
      else after[node] == before[node]
  }

  /** The events of one column, from top to bottom. */
  function Column(rows: seq<Row>, node: string): seq<LogInfo> {
    if rows == [] then []
    else
      var above, last := Column(rows[..|rows|-1], node), rows[|rows|-1];
      if node in last.cells then above + [last.cells[node]] else above
  }

  /** Every column, followed by the events still to come, is the timeline of its node. */
  ghost predicate Conserved(start: map<string, seq<LogInfo>>, rows: seq<Row>, left: map<string, seq<LogInfo>>) {
    left.Keys == start.Keys && forall node :: node in start ==> Column(rows, node) + left[node] == start[node]
  }

  /** An event the sentinel hides. */
  predicate IsLate(li: LogInfo) {
    IsDated(li) && li.date.value > SENTINEL
  }

  ghost predicate HasLate(events: seq<LogInfo>) {
    exists i :: 0 <= i < |events| && IsLate(events[i])
  }

  ghost predicate Chronological(events: seq<LogInfo>) {
    && (forall i :: 0 <= i < |events| ==> IsDated(events[i]))
    && (forall i, j :: 0 <= i < j < |events| ==> events[i].date.value <= events[j].date.value)
  }

  ghost predicate AllChronological(nodes: map<string, seq<LogInfo>>) {
    forall node :: node in nodes ==> Chronological(nodes[node])
  }

  /** All events of a row have the date of the row. */
  ghost predicate IsDatedRow(row: Row) {
    row.cells != map[] && row.date.Some? && forall node :: node in row.cells ==> row.cells[node].date == row.date
  }

  /** The rows go down in time, and a node that is not in a row has nothing at that time further down. */
  ghost predicate InTime(upper: Row, lower: Row)
    requires upper.date.Some? && lower.date.Some?
  {
    && upper.date.value <= lower.date.value
    && forall node :: node in lower.cells && node !in upper.cells ==> upper.date.value < lower.date.value
  }

  ghost predicate IsTable(rows: seq<Row>) {
    && (forall i :: 0 <= i < |rows| ==> IsDatedRow(rows[i]))
    && (forall i, j :: 0 <= i < j < |rows| ==> InTime(rows[i], rows[j]))
  }

  /** What is left of `node` is not due before the row, nor with it unless the node is in it. */
  ghost predicate RowPrecedes(row: Row, nodes: map<string, seq<LogInfo>>, node: string)
    requires node in nodes && row.date.Some?
  {
    nodes[node] != [] ==>
      && row.date.value <= FirstTime(nodes[node])
      && (node !in row.cells ==> row.date.value < FirstTime(nodes[node]))
  }

  ghost predicate Precedes(rows: seq<Row>, nodes: map<string, seq<LogInfo>>) {
    forall i, node :: 0 <= i < |rows| && node in nodes ==> rows[i].date.Some? && RowPrecedes(rows[i], nodes, node)
  }

  function Left(nodes: map<string, seq<LogInfo>>, keys: seq<string>): nat
    requires forall node :: node in keys ==> node in nodes
  {
    if keys == [] then 0 else |nodes[keys[0]]| + Left(nodes, keys[1..])
  }

  lemma {:induction false} LeftFalls(
    before: map<string, seq<LogInfo>>, after: map<string, seq<LogInfo>>, keys: seq<string>, row: Row, taken: string)
    requires forall node :: node in keys ==> node in before
    requires IsStep(before, row, after) && taken in row.cells
    ensures Left(after, keys) <= Left(before, keys) - if taken in keys then 1 else 0
  {
    if keys != [] {
      LeftFalls(before, after, keys[1..], row, taken);
      var node := keys[0];
      assert if node in row.cells then before[node] == [row.cells[node]] + after[node] else after[node] == before[node];
    }
  }

  /** What the printing loop keeps: from the timelines `start`, with `left` still to print below the rows. */
  ghost predicate Printing(start: map<string, seq<LogInfo>>, rows: seq<Row>, left: map<string, seq<LogInfo>>) {
    && Conserved(start, rows, left)
    && (forall node :: !HasLate(Column(rows, node)))
    && (AllChronological(start) ==> AllChronological(left) && IsTable(rows) && Precedes(rows, left))
  }

  lemma StartPrinting(start: map<string, seq<LogInfo>>)
    ensures Printing(start, [], start)
  {
  }

  lemma DueHaveEvents(nodes: map<string, seq<LogInfo>>)
    ensures forall node :: IsDue(nodes, node) ==> node in nodes && nodes[node] != []
  {
  }

  lemma {:induction false} FirstTimeOfHead(li: LogInfo, events: seq<LogInfo>)
    ensures IsDated(li) ==> FirstTime([li] + events) == li.date.value
    ensures Chronological([li] + events) ==>
      IsDated(li) && Chronological(events) && (events != [] ==> li.date.value <= FirstTime(events))
  {
    var all := [li] + events;
    assert all[1..] == events;
    if Chronological(all) {
      assert IsDated(all[0]);
      assert forall i :: 0 <= i < |events| ==> events[i] == all[i+1];
    }
  }

  lemma PrintStep(
    start: map<string, seq<LogInfo>>, rows: seq<Row>, before: map<string, seq<LogInfo>>,
    row: Row, after: map<string, seq<LogInfo>>, taken: string)
    requires Printing(start, rows, before) && IsStep(before, row, after)
    requires forall node :: node in row.cells <==> IsDue(before, node)
    requires taken in row.cells && row.date == row.cells[taken].date
    ensures Printing(start, rows + [row], after)
  {
    hide Chronological, IsTable, Precedes, IsDue, HasLate, AllChronological, IsStep;
    StepConserves(start, rows, before, row, after);
    forall node
      ensures !HasLate(Column(rows + [row], node))
    {
      ColumnStep(rows, row, node);
      if node in row.cells {
        DueNotLate(before, row, after, node, Column(rows, node));
      }
    }
    if AllChronological(start) {
      StepHeads(before, row, after);
      StepDated(before, row, after, taken);
      StepTable(rows, before, row, after);
      StepPrecedes(rows, before, row, after, taken);
    }
  }

  lemma ColumnStep(rows: seq<Row>, row: Row, node: string)
    ensures Column(rows + [row], node) == Column(rows, node) + if node in row.cells then [row.cells[node]] else []
  {
    assert (rows + [row])[..|rows|] == rows;
  }

  lemma StepConserves(
    start: map<string, seq<LogInfo>>, rows: seq<Row>, before: map<string, seq<LogInfo>>,
    row: Row, after: map<string, seq<LogInfo>>)
    requires Conserved(start, rows, before) && IsStep(before, row, after)
    ensures Conserved(start, rows + [row], after)
  {
    forall node | node in start
      ensures Column(rows + [row], node) + after[node] == start[node]
    {
      ColumnStep(rows, row, node);
      assert Column(rows, node) + before[node] == start[node];
      if node in row.cells {
        assert before[node] == [row.cells[node]] + after[node];
      }
    }
  }

  lemma DueNotLate(
    before: map<string, seq<LogInfo>>, row: Row, after: map<string, seq<LogInfo>>, node: string, above: seq<LogInfo>)
    requires IsStep(before, row, after) && node in row.cells && IsDue(before, node) && !HasLate(above)
    ensures !HasLate(above + [row.cells[node]])
  {
    var li := row.cells[node];
    assert before[node] == [li] + after[node];
    FirstTimeOfHead(li, after[node]);
    var events := above + [li];
    forall i | 0 <= i < |events|
      ensures !IsLate(events[i])
    {
      assert i < |above| ==> events[i] == above[i];
    }
  }

  /** In chronological timelines a step takes heads dated by their timelines and leaves what is not earlier. */
  ghost predicate TakesHead(before: map<string, seq<LogInfo>>, row: Row, after: map<string, seq<LogInfo>>, node: string)
    requires node in before && node in after
  {
    if node in row.cells
    then
      && before[node] != [] && row.cells[node].date.Some? && row.cells[node].date.value == FirstTime(before[node])
      && (after[node] != [] ==> FirstTime(before[node]) <= FirstTime(after[node]))
    else after[node] == before[node]
  }

  lemma StepHeads(before: map<string, seq<LogInfo>>, row: Row, after: map<string, seq<LogInfo>>)
    requires AllChronological(before) && IsStep(before, row, after)
    ensures AllChronological(after)
    ensures after.Keys == before.Keys && row.cells.Keys <= before.Keys
    ensures forall node :: node in before ==> TakesHead(before, row, after, node)
  {
    hide Chronological, FirstTime;
    forall node | node in before
      ensures Chronological(after[node]) && TakesHead(before, row, after, node)
    {
      assert Chronological(before[node]);
      if node in row.cells {
        assert before[node] == [row.cells[node]] + after[node];
        FirstTimeOfHead(row.cells[node], after[node]);
      }
    }
  }

  lemma StepDated(before: map<string, seq<LogInfo>>, row: Row, after: map<string, seq<LogInfo>>, taken: string)
    requires after.Keys == before.Keys && row.cells.Keys <= before.Keys
    requires forall node :: node in before ==> TakesHead(before, row, after, node)
    requires forall node :: node in row.cells <==> IsDue(before, node)
    requires taken in row.cells && row.date == row.cells[taken].date
    ensures IsDatedRow(row) && row.date.value == FirstTime(before[taken])
  {
    hide FirstTime;
    assert TakesHead(before, row, after, taken) && IsDue(before, taken);
    forall node | node in row.cells
      ensures row.cells[node].date == row.date
    {
      assert TakesHead(before, row, after, node) && IsDue(before, node);
    }
  }

  lemma StepTable(rows: seq<Row>, before: map<string, seq<LogInfo>>, row: Row, after: map<string, seq<LogInfo>>)
    requires after.Keys == before.Keys && row.cells.Keys <= before.Keys
    requires forall node :: node in before ==> TakesHead(before, row, after, node)
    requires IsTable(rows) && IsDatedRow(row) && Precedes(rows, before)
    ensures IsTable(rows + [row])
  {
    hide FirstTime;
    var lower := rows + [row];
    forall i | 0 <= i < |rows|
      ensures InTime(rows[i], row)
    {
      assert IsDatedRow(rows[i]);
      forall node | node in row.cells
        ensures rows[i].date.value <= row.date.value && (node !in rows[i].cells ==> rows[i].date.value < row.date.value)
      {
        assert RowPrecedes(rows[i], before, node) && TakesHead(before, row, after, node);
      }
    }
  }

  lemma StepPrecedes(
    rows: seq<Row>, before: map<string, seq<LogInfo>>, row: Row, after: map<string, seq<LogInfo>>, taken: string)
    requires after.Keys == before.Keys && row.cells.Keys <= before.Keys
    requires forall node :: node in before ==> TakesHead(before, row, after, node)
    requires forall node :: node in row.cells <==> IsDue(before, node)
    requires Precedes(rows, before) && taken in row.cells
    requires IsDatedRow(row) && row.date.value == FirstTime(before[taken])
    ensures Precedes(rows + [row], after)
  {
    hide FirstTime;
    var lower := rows + [row];
    forall i, node | 0 <= i < |lower| && node in after
      ensures lower[i].date.Some? && RowPrecedes(lower[i], after, node)
    {
      assert TakesHead(before, row, after, node);
      if i < |rows| {
        assert RowPrecedes(rows[i], before, node);
      } else {
        assert IsDue(before, taken);
        OthersAreLater(before, taken, node);
      }
    }
  }

  lemma OthersAreLater(nodes: map<string, seq<LogInfo>>, due: string, node: string)
    requires IsDue(nodes, due) && node in nodes
    ensures nodes[node] != [] ==>
      && FirstTime(nodes[due]) <= FirstTime(nodes[node])
      && (FirstTime(nodes[due]) == FirstTime(nodes[node]) ==> IsDue(nodes, node))
  {
  }

  /** Among timelines with events left, one comes first. */
  lemma {:induction false} SomeoneIsFirst(nodes: map<string, seq<LogInfo>>, among: set<string>) returns (first: string)
    requires among != {} && forall node :: node in among ==> node in nodes
    ensures first in among
    ensures forall node :: node in among ==> FirstTime(nodes[first]) <= FirstTime(nodes[node])
    decreases |among|
  {
    first :| first in among;
    if among != {first} {
      var rest := SomeoneIsFirst(nodes, among - {first});
      if FirstTime(nodes[rest]) < FirstTime(nodes[first]) {
        first := rest;
      }
    }
  }

  lemma {:induction false} FirstTimeIsSomeDate(events: seq<LogInfo>)
    ensures FirstTime(events) == ZERO_TIME ||
      exists i :: 0 <= i < |events| && IsDated(events[i]) && events[i].date.value == FirstTime(events)
    decreases |events|
  {
    if events != [] && !IsDated(events[0]) {
      FirstTimeIsSomeDate(events[1..]);
      if FirstTime(events) != ZERO_TIME {
        var rest := events[1..];
        var i :| 0 <= i < |rest| && IsDated(rest[i]) && rest[i].date.value == FirstTime(rest);
        assert IsDated(events[i+1]) && events[i+1].date.value == FirstTime(events);
      }
    } else if events != [] {
      assert IsDated(events[0]);
    }
  }

  /** When no node is due any more, those with events left are all past the sentinel. */
  lemma NothingDue(left: map<string, seq<LogInfo>>, node: string)
    requires forall node :: !IsDue(left, node)
    requires node in left && left[node] != []
    ensures FirstTime(left[node]) > SENTINEL
  {
    var among := set n | n in left && left[n] != [];
    assert node in among;
    var first := SomeoneIsFirst(left, among);
    assert !IsDue(left, first);
  }

  lemma EndPrinting(start: map<string, seq<LogInfo>>, rows: seq<Row>, left: map<string, seq<LogInfo>>)
    requires Printing(start, rows, left)
    requires forall node :: !IsDue(left, node)
    ensures Conserved(start, rows, left)
    ensures forall node :: node in left ==> (left[node] == [] <==> !HasLate(start[node]))
    ensures AllChronological(start) ==> IsTable(rows)
  {
    forall node | node in left
      ensures left[node] == [] <==> !HasLate(start[node])
    {
      var above := Column(rows, node);
      assert above + left[node] == start[node];
      if left[node] == [] {
        assert above == start[node];
      } else {
        NothingDue(left, node);
        FirstTimeIsSomeDate(left[node]);
        var i :| 0 <= i < |left[node]| && IsDated(left[node][i]) && left[node][i].date.value == FirstTime(left[node]);
        assert start[node][|above| + i] == left[node][i];
      }
    }
  }
}
