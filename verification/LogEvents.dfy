/** Events of a log and the local timeline they are added to (loginfo.go, timeline.go). */
module LogEvents {
  import opened Translations

  datatype LogCtx = LogCtx(
    filePath: string, fileType: string,
    ownIPs: seq<string>, ownHashes: seq<string>, ownNames: seq<string>,
    version: string, conflicts: seq<string>)
  {
    /** This context, completed with what an earlier one knew. */
    function Inherit(earlier: LogCtx): LogCtx {
      this.(
        ownHashes := earlier.ownHashes + ownHashes,
        ownNames := earlier.ownNames + ownNames,
        ownIPs := earlier.ownIPs + ownIPs,
        version := if version == "" then earlier.version else version,
        conflicts := earlier.conflicts + conflicts)
    }
  }

  /** `message` is what the displayer shows in the event's own context, `None` without a displayer. */
  datatype LogInfo = LogInfo(
    date: Option<Time>, message: Option<string>, regexUsed: string,
    logCtx: LogCtx, verbosity: int, repetitionCount: int)
  {
    predicate IsDuplicatedEvent(base: LogInfo, previous: LogInfo) {
      && base.regexUsed == previous.regexUsed
      && base.message.Some? && previous.message.Some? && message.Some?
      && base.message == previous.message
      && previous.regexUsed == regexUsed
      && previous.message == message
    }

    /** Same regex and same shown message. */
    predicate SameEvent(other: LogInfo) {
      regexUsed == other.regexUsed && message == other.message
    }

    predicate Repeats(other: LogInfo) {
      message.Some? && SameEvent(other)
    }
  }

  class LocalTimeline {
    var events: seq<LogInfo>

    constructor ()
      ensures events == []
    {
      events := [];
    }

    method Add(li: LogInfo)
      modifies this
      ensures events == Added(old(events), li)
    {
      var n := |events|;
      if n > 1 && li.IsDuplicatedEvent(events[n-2], events[n-1]) {
        events := events[n-2 := events[n-2].(repetitionCount := events[n-2].repetitionCount + 1)];
        events := events[n-1 := li];
      } else {
        events := events + [li];
      }
    }

    /** Adds a whole log, as the reading loop does. */
    method AddAll(log: seq<LogInfo>)
      requires events == []
      modifies this
      ensures events == Encoded(log)
    {
      hide Encoded, Added;
      assert log[..0] == [];
      EncodedEnd(log[..0]);
      for i := 0 to |log|
        invariant events == Encoded(log[..i])
      {
        AddedToEncoded(log[..i], log[i]);
        Add(log[i]);
        assert log[..i+1] == log[..i] + [log[i]];
      }
      assert log[..|log|] == log;
    }
  }

  function Added(events: seq<LogInfo>, li: LogInfo): seq<LogInfo> {
    var n := |events|;
    if n > 1 && li.IsDuplicatedEvent(events[n-2], events[n-1])
    then events[..n-2] + [events[n-2].(repetitionCount := events[n-2].repetitionCount + 1), li]
    else events + [li]
  }

  // ---------- the run-length code ----------

  /** Where the longest run of one repeated event ending the log starts. */
  function RunStart(log: seq<LogInfo>): (k: nat)
    requires log != []
    ensures k < |log|
  {
    var n := |log|;
    if n > 1 && log[n-2].Repeats(log[n-1]) then RunStart(log[..n-1]) else n - 1
  }

  ghost predicate IsRun(run: seq<LogInfo>) {
    run != [] && forall i :: 0 <= i < |run| - 1 ==> run[i].Repeats(run[|run|-1])
  }

  lemma {:induction false} LastRunIs(log: seq<LogInfo>)
    requires log != []
    ensures var k := RunStart(log); IsRun(log[k..]) && (k > 0 ==> !log[k-1].Repeats(log[k]))
  {
    var n := |log|;
    if n > 1 && log[n-2].Repeats(log[n-1]) {
      LastRunIs(log[..n-1]);
      var k := RunStart(log);
      assert log[k..] == log[..n-1][k..] + [log[n-1]];
    }
  }

  /** A run keeps its first event, which counts what is not shown, and its latest one. */
  function EncodedRun(run: seq<LogInfo>): seq<LogInfo> {
    if |run| <= 2 then run
    else [run[0].(repetitionCount := run[0].repetitionCount + |run| - 2), run[|run|-1]]
  }

  function Encoded(log: seq<LogInfo>): seq<LogInfo> {
    if log == [] then []
    else
      var k := RunStart(log);
      Encoded(log[..k]) + EncodedRun(log[k..])
  }

  lemma EncodedEnd(log: seq<LogInfo>)
    ensures if log == [] then Encoded(log) == []
      else Encoded(log) != [] && Encoded(log)[|Encoded(log)|-1] == log[|log|-1]
  {
    if log != [] {
      var k := RunStart(log);
      var run := log[k..];
      EncodedParts(log, k);
      assert EncodedRun(run) != [] && EncodedRun(run)[|EncodedRun(run)|-1] == run[|run|-1];
    }
  }

  lemma EncodedParts(log: seq<LogInfo>, k: nat)
    requires log != [] && k == RunStart(log)
    ensures Encoded(log) == Encoded(log[..k]) + EncodedRun(log[k..])
  {
  }

  lemma RunStartOfLonger(log: seq<LogInfo>, li: LogInfo)
    requires log != []
    ensures RunStart(log + [li]) == if log[|log|-1].Repeats(li) then RunStart(log) else |log|
  {
    assert (log + [li])[..|log|] == log;
  }

  /** An event that repeats the last run joins it. */
  lemma AddedToRun(head: seq<LogInfo>, run: seq<LogInfo>, li: LogInfo)
    requires IsRun(run) && run[|run|-1].Repeats(li)
    requires head != [] ==> !head[|head|-1].Repeats(run[0])
    ensures Added(head + EncodedRun(run), li) == head + EncodedRun(run + [li])
  {
    if |run| == 1 {
      AddedToOne(head, run[0], li);
      assert run == [run[0]];
    } else {
      var code := EncodedRun(run);
      assert code == [code[0], code[1]] && code[0].SameEvent(run[0]) && code[1] == run[|run|-1];
      AddedToTwo(head, code[0], code[1], li);
      assert (run + [li])[0] == run[0] && (run + [li])[|run|] == li;
    }
  }

  lemma AddedToOne(head: seq<LogInfo>, one: LogInfo, li: LogInfo)
    requires head != [] ==> !head[|head|-1].Repeats(one)
    ensures Added(head + [one], li) == head + [one, li]
  {
  }

  lemma AddedToTwo(head: seq<LogInfo>, first: LogInfo, last: LogInfo, li: LogInfo)
    requires li.IsDuplicatedEvent(first, last)
    ensures Added(head + [first, last], li) == head + [first.(repetitionCount := first.repetitionCount + 1), li]
  {
    var events := head + [first, last];
    assert events[..|events|-2] == head;
  }

  lemma AddedToLastRun(log: seq<LogInfo>, li: LogInfo)
    requires log != [] && log[|log|-1].Repeats(li)
    ensures Added(Encoded(log), li) == Encoded(log + [li])
  {
    hide Encoded, Added, EncodedRun, RunStart, IsRun, LogInfo.Repeats;
    var longer, k := log + [li], RunStart(log);
    var run := log[k..];
    RunStartOfLonger(log, li);
    LastRunIs(log);
    HeadEndsApart(log, k);
    EncodedParts(log, k);
    EncodedParts(longer, k);
    assert longer[..k] == log[..k] && longer[k..] == run + [li];
    assert run[|run|-1] == log[|log|-1];
    AddedToRun(Encoded(log[..k]), run, li);
  }

  /** What comes before the last run does not end with the event of the run. */
  lemma HeadEndsApart(log: seq<LogInfo>, k: nat)
    requires log != [] && k == RunStart(log)
    ensures var head := Encoded(log[..k]); head != [] ==> !head[|head|-1].Repeats(log[k..][0])
  {
    hide Encoded, RunStart, IsRun, LogInfo.Repeats;
    LastRunIs(log);
    EncodedEnd(log[..k]);
  }

  /** Adding an event to the code of a log gives the code of the longer log. */
  lemma AddedToEncoded(log: seq<LogInfo>, li: LogInfo)
    ensures Added(Encoded(log), li) == Encoded(log + [li])
  {
    hide Encoded, Added, EncodedRun;
    var longer := log + [li];
    if log == [] {
      AddedFirst(log, li);
    } else if log[|log|-1].Repeats(li) {
      AddedToLastRun(log, li);
    } else {
      RunStartOfLonger(log, li);
      EncodedEnd(log);
      EncodedParts(longer, |log|);
      AddedApart(Encoded(log), li);
      assert longer[..|log|] == log && longer[|log|..] == [li];
    }
  }

  lemma AddedFirst(log: seq<LogInfo>, li: LogInfo)
    requires log == []
    ensures Added(Encoded(log), li) == Encoded(log + [li])
  {
    assert (log + [li])[..0] == [];
  }

  lemma AddedApart(events: seq<LogInfo>, li: LogInfo)
    requires events != [] && !events[|events|-1].Repeats(li)
    ensures Added(events, li) == events + EncodedRun([li])
  {
  }

  // ---------- what the code keeps ----------

  function Shown(events: seq<LogInfo>): int {
    if events == [] then 0 else Shown(events[..|events|-1]) + 1 + events[|events|-1].repetitionCount
  }

  lemma {:induction false} ShownConcat(a: seq<LogInfo>, b: seq<LogInfo>)
    ensures Shown(a + b) == Shown(a) + Shown(b)
  {
    if b == [] {
      assert a + b == a;
    } else {
      ShownConcat(a, b[..|b|-1]);
      assert (a + b)[..|a + b|-1] == a + b[..|b|-1];
    }
  }

  /** Events as they come from the log. */
  ghost predicate NoneCounted(events: seq<LogInfo>) {
    forall i :: 0 <= i < |events| ==> events[i].repetitionCount == 0
  }

  lemma ShownRun(run: seq<LogInfo>)
    requires run != [] && NoneCounted(run)
    ensures Shown(EncodedRun(run)) == |run|
  {
    var code := EncodedRun(run);
    assert code[..|code|-1] == if |run| == 1 then [] else [code[0]];
    assert Shown(code) == Shown(code[..|code|-1]) + 1 + code[|code|-1].repetitionCount;
    if |run| > 1 {
      assert [code[0]][..0] == [];
      assert Shown([code[0]]) == 0 + 1 + code[0].repetitionCount;
    }
  }

  /** No event is lost count of. */
  lemma {:induction false} EncodedCountsAll(log: seq<LogInfo>)
    requires NoneCounted(log)
    ensures Shown(Encoded(log)) == |log|
  {
    if log != [] {
      var k := RunStart(log);
      EncodedCountsAll(log[..k]);
      ShownRun(log[k..]);
      ShownConcat(Encoded(log[..k]), EncodedRun(log[k..]));
    }
  }

  function Copies(li: LogInfo, n: nat): seq<LogInfo> {
    seq(n, _ => li)
  }

  /** The timeline with every hidden repetition written out after the event that counts it. */
  function Expanded(events: seq<LogInfo>): seq<LogInfo> {
    if events == [] then []
    else
      var li := events[|events|-1];
      Expanded(events[..|events|-1]) + Copies(li, if li.repetitionCount < 0 then 1 else 1 + li.repetitionCount)
  }

  lemma {:induction false} ExpandedConcat(a: seq<LogInfo>, b: seq<LogInfo>)
    ensures Expanded(a + b) == Expanded(a) + Expanded(b)
  {
    if b == [] {
      assert a + b == a;
    } else {
      ExpandedConcat(a, b[..|b|-1]);
      assert (a + b)[..|a + b|-1] == a + b[..|b|-1];
    }
  }

  ghost predicate SameEvents(a: seq<LogInfo>, b: seq<LogInfo>) {
    |a| == |b| && forall i :: 0 <= i < |a| ==> a[i].SameEvent(b[i])
  }

  lemma SameEventsConcat(a: seq<LogInfo>, b: seq<LogInfo>, c: seq<LogInfo>, d: seq<LogInfo>)
    requires SameEvents(a, c) && SameEvents(b, d)
    ensures SameEvents(a + b, c + d)
  {
  }

  /** Writing the repetitions out gives the log back, up to the regex and the message of each event. */
  lemma {:induction false} ExpandedGivesLog(log: seq<LogInfo>)
    requires NoneCounted(log)
    ensures SameEvents(Expanded(Encoded(log)), log)
    decreases |log|
  {
    if log != [] {
      ExpandedGivesLog(log[..RunStart(log)]);
      ExpandedStep(log);
    }
  }

  lemma ExpandedStep(log: seq<LogInfo>)
    requires log != [] && NoneCounted(log)
    requires var head := log[..RunStart(log)]; SameEvents(Expanded(Encoded(head)), head)
    ensures SameEvents(Expanded(Encoded(log)), log)
  {
    hide EncodedRun, Encoded, Expanded, SameEvents;
    var k := RunStart(log);
    EncodedParts(log, k);
    LastRunIs(log);
    ExpandedRun(log[k..]);
    ExpandedConcat(Encoded(log[..k]), EncodedRun(log[k..]));
    SameEventsConcat(Expanded(Encoded(log[..k])), Expanded(EncodedRun(log[k..])), log[..k], log[k..]);
    assert log[..k] + log[k..] == log;
  }

  lemma ExpandedRun(run: seq<LogInfo>)
    requires IsRun(run) && NoneCounted(run)
    ensures SameEvents(Expanded(EncodedRun(run)), run)
  {
    var code := EncodedRun(run);
    var last := code[|code|-1];
    assert code[..|code|-1] == if |run| == 1 then [] else [code[0]];
    assert Expanded(code) == Expanded(code[..|code|-1]) + Copies(last, 1);
    if |run| > 1 {
      assert [code[0]][..0] == [];
      assert Expanded([code[0]]) == [] + Copies(code[0], |run| - 1);
    }
  }

  /** No three neighbours of the code are the same event: every longer run has been folded. */
  lemma {:induction false} NoThreeAlike(log: seq<LogInfo>, i: nat)
    requires i + 2 < |Encoded(log)|
    ensures var e := Encoded(log); !e[i+2].IsDuplicatedEvent(e[i], e[i+1])
  {
    if log == [] {
      EncodedEnd(log);
    } else {
      hide Encoded, RunStart;
      var k := RunStart(log);
      var head, code := Encoded(log[..k]), EncodedRun(log[k..]);
      EncodedParts(log, k);
      LastRunIs(log);
      HeadEndsApart(log, k);
      if i + 2 < |head| {
        NoThreeAlike(log[..k], i);
      } else {
        assert |code| <= 2 && code[0].SameEvent(log[k..][0]);
      }
    }
  }
}
