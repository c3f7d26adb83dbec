/** Merging the timelines of two log files of one node (timeline.go). */
module TimelineMerge {
  import opened Translations
  import opened LogEvents

  /** The zero `time.Time`. */
  const ZERO_TIME: Time := 0

  /** The dates of other files than error logs do not order a timeline. */
  predicate IsDated(li: LogInfo) {
    li.date.Some? && (li.logCtx.fileType == "error.log" || li.logCtx.fileType == "")
  }

  /** An event whose date counts: it has one, and it is of an error log or of a log of no known type. */
  ghost predicate OrdersTimeline(li: LogInfo) {
    li.date != None && li.logCtx.fileType in {"error.log", ""}
  }

  function FirstTime(l: seq<LogInfo>): Time {
    if l == [] then ZERO_TIME else if IsDated(l[0]) then l[0].date.value else FirstTime(l[1..])
  }

  function LastTime(l: seq<LogInfo>): Time {
    if l == [] then ZERO_TIME
    else if IsDated(l[|l|-1]) then l[|l|-1].date.value else LastTime(l[..|l|-1])
  }

  /** The date of the first event that an error log, or a log of no known type, has dated. */
  method GetFirstTime(l: seq<LogInfo>) returns (t: Time)
    ensures t == FirstTime(l)
    ensures (t == ZERO_TIME && forall i :: 0 <= i < |l| ==> !OrdersTimeline(l[i])) ||
      exists i :: 0 <= i < |l| && OrdersTimeline(l[i]) && l[i].date == Some(t)
        && forall j :: 0 <= j < i ==> !OrdersTimeline(l[j])
  {
    for i := 0 to |l|
      invariant FirstTime(l) == FirstTime(l[i..])
      invariant forall j :: 0 <= j < i ==> !OrdersTimeline(l[j])
    {
      if IsDated(l[i]) {
        return l[i].date.value;
      }
    }
    return ZERO_TIME;
  }

  /** The date of the last such event. */
  method GetLastTime(l: seq<LogInfo>) returns (t: Time)
    ensures t == LastTime(l)
    ensures (t == ZERO_TIME && forall i :: 0 <= i < |l| ==> !OrdersTimeline(l[i])) ||
      exists i :: 0 <= i < |l| && OrdersTimeline(l[i]) && l[i].date == Some(t)
        && forall j :: i < j < |l| ==> !OrdersTimeline(l[j])
  {
    assert l[..|l|] == l;
    for i := |l| downto 0
      invariant LastTime(l) == LastTime(l[..i])
      invariant forall j :: i <= j < |l| ==> !OrdersTimeline(l[j])
    {
      assert l[..i+1][..i] == l[..i];
      if IsDated(l[i]) {
        return l[i].date.value;
      }
    }
    return ZERO_TIME;
  }

  predicate IsAfter(li: LogInfo, at: Time) {
    li.date.Some? && li.date.value > at
  }

  /** The timeline from the first event dated after `at` on. */
  function CutAt(t: seq<LogInfo>, at: Time): (r: seq<LogInfo>)
    ensures |r| <= |t| && r == t[|t|-|r|..]
    ensures forall i :: 0 <= i < |t| - |r| ==> !IsAfter(t[i], at)
    ensures r != [] ==> IsAfter(r[0], at)
  {
    if t == [] || IsAfter(t[0], at) then t else CutAt(t[1..], at)
  }

  method CutTimelineAt(t: seq<LogInfo>, at: Time) returns (r: seq<LogInfo>)
    ensures r == CutAt(t, at)
    ensures |r| <= |t| && r == t[|t|-|r|..]
    ensures forall i :: 0 <= i < |t| - |r| ==> t[i].date == None || t[i].date.value <= at
    ensures r != [] ==> r[0].date.Some? && r[0].date.value > at
  {
    var i := 0;
    while i < |t|
      invariant 0 <= i <= |t|
      invariant CutAt(t, at) == CutAt(t[i..], at)
    {
      if IsAfter(t[i], at) {
        break;
      }
      i := i + 1;
    }
    return t[i..];
  }

  lemma {:induction false} LastTimeIsDated(l: seq<LogInfo>) returns (i: nat)
    requires LastTime(l) != ZERO_TIME || FirstTime(l) != ZERO_TIME
    ensures i < |l| && IsDated(l[i]) && l[i].date.value == LastTime(l)
    decreases |l|
  {
    if IsDated(l[|l|-1]) {
      i := |l| - 1;
    } else {
      FirstTimeOfPrefix(l);
      i := LastTimeIsDated(l[..|l|-1]);
    }
  }

  lemma {:induction false} FirstTimeOfPrefix(l: seq<LogInfo>)
    requires l != [] && !IsDated(l[|l|-1])
    ensures FirstTime(l) == FirstTime(l[..|l|-1])
    decreases |l|
  {
    if |l| > 1 && !IsDated(l[0]) {
      FirstTimeOfPrefix(l[1..]);
      assert l[1..][..|l|-2] == l[..|l|-1][1..];
    }
  }

  /** The timeline with its last context completed by the last one of an earlier timeline. */
  function CompletedBy(t: seq<LogInfo>, earlier: seq<LogInfo>): seq<LogInfo>
    requires t != [] && earlier != []
  {
    var last := t[|t|-1];
    t[|t|-1 := last.(logCtx := last.logCtx.Inherit(earlier[|earlier|-1].logCtx))]
  }

  /** `t2`, completed by `t1`, after `t1`. */
  function Joined(t1: seq<LogInfo>, t2: seq<LogInfo>): seq<LogInfo>
    requires t1 != [] && t2 != []
  {
    t1 + CompletedBy(t2, t1)
  }

  /** The merge of two timelines, `t1` not starting after `t2`. */
  function MergedInOrder(t1: seq<LogInfo>, t2: seq<LogInfo>): seq<LogInfo>
    requires t1 != [] && t2 != []
  {
    if FirstTime(t1) == FirstTime(t2) then
      if LastTime(t1) < LastTime(t2) then t2 else t1
    else if LastTime(t1) >= LastTime(t2) then t1
    else if LastTime(t1) > FirstTime(t2) then
      CutLeavesSome(t1, t2);
      Joined(t1, CutAt(t2, LastTime(t1)))
    else Joined(t1, t2)
  }

  function Merged(t1: seq<LogInfo>, t2: seq<LogInfo>): seq<LogInfo> {
    if t1 == [] then t2
    else if t2 == [] then t1
    else if FirstTime(t1) > FirstTime(t2) then MergedInOrder(t2, t1)
    else MergedInOrder(t1, t2)
  }

  /** The cut of MergeTimeline always leaves an event to complete. */
  lemma CutLeavesSome(t1: seq<LogInfo>, t2: seq<LogInfo>)
    requires LastTime(t1) < LastTime(t2) && LastTime(t1) > FirstTime(t2)
    ensures CutAt(t2, LastTime(t1)) != []
  {
    var i := LastTimeIsDated(t2);
    assert IsAfter(t2[i], LastTime(t1));
  }

  /** The timelines are put one after the other, `t1` first. */
  predicate Joins(t1: seq<LogInfo>, t2: seq<LogInfo>) {
    t1 != [] && t2 != [] && FirstTime(t1) < FirstTime(t2) && LastTime(t1) < LastTime(t2)
  }

  // ---------- what the last context knows ----------

  /** The first list, then the second; the latest entry is the last of the second if that has any. */
  ghost predicate Continues(whole: seq<string>, first: seq<string>, second: seq<string>) {
    && first <= whole && whole[|first|..] == second
    && (whole != [] ==> whole[|whole|-1] == if second != [] then second[|second|-1] else first[|first|-1])
  }

  /** All that was known at the end of an earlier and of a later file; where only one can be right, the later. */
  ghost predicate KnowsBoth(logCtx: LogCtx, earlier: LogCtx, later: LogCtx) {
    && Continues(logCtx.ownIPs, earlier.ownIPs, later.ownIPs)
    && Continues(logCtx.ownNames, earlier.ownNames, later.ownNames)
    && Continues(logCtx.ownHashes, earlier.ownHashes, later.ownHashes)
    && Continues(logCtx.conflicts, earlier.conflicts, later.conflicts)
    && logCtx.version == (if later.version != "" then later.version else earlier.version)
    && logCtx.filePath == later.filePath && logCtx.fileType == later.fileType
  }

  /** The timeline ends with the last event of `later`, which knows what both knew at their ends. */
  ghost predicate EndsKnowingBoth(t: seq<LogInfo>, earlier: seq<LogInfo>, later: seq<LogInfo>) {
    && t != [] && earlier != [] && later != []
    && t[|t|-1].(logCtx := later[|later|-1].logCtx) == later[|later|-1]
    && KnowsBoth(t[|t|-1].logCtx, earlier[|earlier|-1].logCtx, later[|later|-1].logCtx)
  }

  lemma CompletedKnowsBoth(earlier: seq<LogInfo>, later: seq<LogInfo>)
    requires earlier != [] && later != []
    ensures EndsKnowingBoth(CompletedBy(later, earlier), earlier, later)
    ensures CompletedBy(later, earlier)[..|later|-1] == later[..|later|-1]
  {
  }

  /** When two timelines are joined, whichever is passed first, the merge ends knowing what both knew. */
  lemma MergedKnowsBoth(earlier: seq<LogInfo>, later: seq<LogInfo>)
    requires Joins(earlier, later)
    ensures EndsKnowingBoth(Merged(earlier, later), earlier, later)
    ensures EndsKnowingBoth(Merged(later, earlier), earlier, later)
  {
    hide FirstTime, LastTime, CutAt, EndsKnowingBoth, CompletedBy;
    if LastTime(earlier) > FirstTime(later) {
      CutLeavesSome(earlier, later);
      CutIsTail(earlier, later);
      JoinedKnowsBoth(earlier, later, |later| - |CutAt(later, LastTime(earlier))|);
    } else {
      CutIsTail(earlier, later);
      JoinedKnowsBoth(earlier, later, 0);
    }
  }

  lemma JoinedKnowsBoth(earlier: seq<LogInfo>, later: seq<LogInfo>, start: nat)
    requires earlier != [] && start < |later|
    ensures EndsKnowingBoth(Joined(earlier, later[start..]), earlier, later)
  {
    hide KnowsBoth, CompletedBy;
    var rest := later[start..];
    CompletedKnowsBoth(earlier, rest);
    SameSize(rest, earlier);
    assert Joined(earlier, rest)[|Joined(earlier, rest)|-1] == CompletedBy(rest, earlier)[|rest|-1];
  }

  lemma SameSize(t: seq<LogInfo>, earlier: seq<LogInfo>)
    requires t != [] && earlier != []
    ensures |CompletedBy(t, earlier)| == |t|
  {
  }

  /**
    When `later` goes on after `earlier`, their merge `r` ends knowing what both knew, and so does `later`
    itself, `after` the merge; its other events stay.
   */
  ghost predicate EndsKnown(r: seq<LogInfo>, after: seq<LogInfo>, earlier: seq<LogInfo>, later: seq<LogInfo>) {
    Joins(earlier, later) ==>
      && EndsKnowingBoth(r, earlier, later) && EndsKnowingBoth(after, earlier, later)
      && after[..|after|-1] == later[..|later|-1]
  }

  /** What is known after the merge of `t1` and `t2`, whichever is the earlier, with what they have become. */
  ghost predicate AfterMerge(
    r: seq<LogInfo>, after1: seq<LogInfo>, after2: seq<LogInfo>, t1: seq<LogInfo>, t2: seq<LogInfo>)
  {
    EndsKnown(r, after2, t1, t2) && EndsKnown(r, after1, t2, t1)
  }

  lemma KnownAfterMerge(t1: seq<LogInfo>, t2: seq<LogInfo>)
    ensures AfterMerge(Merged(t1, t2),
      if Joins(t2, t1) then CompletedBy(t1, t2) else t1, if Joins(t1, t2) then CompletedBy(t2, t1) else t2, t1, t2)
    ensures AfterMerge(Merged(t1, t2),
      if Joins(t1, t2) then CompletedBy(t2, t1) else t2, if Joins(t2, t1) then CompletedBy(t1, t2) else t1, t2, t1)
  {
    hide Merged, EndsKnowingBoth, CompletedBy;
    if Joins(t1, t2) {
      MergedKnowsBoth(t1, t2);
      CompletedKnowsBoth(t1, t2);
      SameSize(t2, t1);
    }
    if Joins(t2, t1) {
      MergedKnowsBoth(t2, t1);
      CompletedKnowsBoth(t2, t1);
      SameSize(t1, t2);
    }
  }

  /**
    The result may be one of the timelines themselves. When they are joined, the context of the later one
    is completed in place, for whoever holds that timeline.
   */
  method MergeTimeline(t1: LocalTimeline, t2: LocalTimeline) returns (r: LocalTimeline)
    modifies t1, t2
    ensures r.events == Merged(old(t1.events), old(t2.events))
    ensures r == t1 || r == t2 || fresh(r)
    ensures t1.events ==
      if Joins(old(t2.events), old(t1.events)) then CompletedBy(old(t1.events), old(t2.events)) else old(t1.events)
    ensures t2.events ==
      if Joins(old(t1.events), old(t2.events)) then CompletedBy(old(t2.events), old(t1.events)) else old(t2.events)
    ensures AfterMerge(r.events, t1.events, t2.events, old(t1.events), old(t2.events))
    decreases if FirstTime(t1.events) > FirstTime(t2.events) then 1 else 0
  {
    hide FirstTime, LastTime, CutAt, CompletedBy, Joined, EndsKnowingBoth, AfterMerge;
    var e1, e2 := t1.events, t2.events;
    KnownAfterMerge(e1, e2);
    if |e1| == 0 {
      return t2;
    }
    if |e2| == 0 {
      return t1;
    }
    var start1 := GetFirstTime(e1);
    var start2 := GetFirstTime(e2);
    if start1 > start2 {
      r := MergeTimeline(t2, t1);
      return;
    }
    var end1 := GetLastTime(e1);
    var end2 := GetLastTime(e2);
    if start1 == start2 {
      if end1 < end2 {
        return t2;
      }
      return t1;
    }
    if end1 >= end2 {
      return t1;
    }
    var rest := e2;
    if end1 > start2 {
      CutLeavesSome(e1, e2);
      rest := CutTimelineAt(e2, end1);
    }
    CutIsTail(e1, e2);
    r := Join(t1, t2, |e2| - |rest|);
  }

  lemma CutIsTail(t1: seq<LogInfo>, t2: seq<LogInfo>)
    ensures var rest := CutAt(t2, LastTime(t1)); |rest| <= |t2| && rest == t2[|t2| - |rest|..]
    ensures t2 == t2[|t2| - |t2|..]
  {
  }

  /** The end of MergeTimeline: what is left of `t2` from `start` on, completed in place, after `t1`. */
  method Join(t1: LocalTimeline, t2: LocalTimeline, start: nat) returns (r: LocalTimeline)
    requires t1 != t2 && t1.events != [] && start < |t2.events|
    modifies t2
    ensures fresh(r) && r.events == Joined(t1.events, old(t2.events)[start..])
    ensures t2.events == CompletedBy(old(t2.events), t1.events)
    ensures EndsKnowingBoth(r.events, t1.events, old(t2.events))
  {
    JoinedKnowsBoth(t1.events, t2.events, start);
    var n := |t2.events|;
    var last := t2.events[n-1];
    t2.events := t2.events[n-1 := last.(logCtx := last.logCtx.Inherit(t1.events[|t1.events|-1].logCtx))];
    r := new LocalTimeline();
    r.events := t1.events + t2.events[start..];
  }

  // ---------- windows of one log ----------

  /** A log with a date on every event, none earlier than the one before; events may share an instant. */
  ghost predicate IsAscending(log: seq<LogInfo>) {
    && (forall i :: 0 <= i < |log| ==> IsDated(log[i]))
    && (forall i, j :: 0 <= i < j < |log| ==> log[i].date.value <= log[j].date.value)
  }

  /** A log in which no two events share an instant. */
  ghost predicate IsLog(log: seq<LogInfo>) {
    && (forall i :: 0 <= i < |log| ==> IsDated(log[i]))
    && (forall i, j :: 0 <= i < j < |log| ==> log[i].date.value < log[j].date.value)
  }

  function At(log: seq<LogInfo>, i: nat): Time
    requires i < |log| && IsDated(log[i])
  {
    log[i].date.value
  }

  /** The first `n` events of the log that lie in a window [a, b) or [c, d), in order. */
  function InEither(log: seq<LogInfo>, a: nat, b: nat, c: nat, d: nat, n: nat): seq<LogInfo>
    requires n <= |log|
  {
    if n == 0 then []
    else
      var before := InEither(log, a, b, c, d, n - 1);
      if a <= n - 1 < b || c <= n - 1 < d then before + [log[n-1]] else before
  }

  /** The events of two windows, each once, in order. */
  function OrderedUnion(log: seq<LogInfo>, a: nat, b: nat, c: nat, d: nat): seq<LogInfo> {
    InEither(log, a, b, c, d, |log|)
  }

  /** Equal but for the context of the last event. */
  ghost predicate SameUpToLastCtx(r: seq<LogInfo>, s: seq<LogInfo>) {
    && |r| == |s|
    && (forall i :: 0 <= i < |r| - 1 ==> r[i] == s[i])
    && (r != [] ==> r[|r|-1].(logCtx := s[|r|-1].logCtx) == s[|r|-1])
  }

  /** The windows have only one event in common, the last of one and the first of the other. */
  predicate ShareOneBoundary(a: nat, b: nat, c: nat, d: nat) {
    (a < c && b < d && b == c + 1) || (c < a && d < b && d == a + 1)
  }

  lemma WindowTimes(log: seq<LogInfo>, a: nat, b: nat)
    requires a < b <= |log| && IsDated(log[a]) && IsDated(log[b-1])
    ensures FirstTime(log[a..b]) == At(log, a)
    ensures LastTime(log[a..b]) == At(log, b - 1)
  {
  }

  /** The first event from `k` on that is later than `at`. */
  function FirstAfter(log: seq<LogInfo>, k: nat, at: Time): (i: nat)
    requires k <= |log|
    ensures k <= i <= |log| && (i < |log| ==> IsAfter(log[i], at))
    ensures forall j :: k <= j < i ==> !IsAfter(log[j], at)
    decreases |log| - k
  {
    if k == |log| || IsAfter(log[k], at) then k else FirstAfter(log, k + 1, at)
  }

  /** Cutting a window leaves what follows the cut. */
  lemma {:induction false} CutWindow(log: seq<LogInfo>, c: nat, d: nat, at: Time)
    requires c <= d <= |log|
    ensures var k := FirstAfter(log, c, at); CutAt(log[c..d], at) == if k < d then log[k..d] else []
    decreases d - c
  {
    if c < d {
      assert log[c..d][0] == log[c];
      if !IsAfter(log[c], at) {
        assert log[c..d][1..] == log[c+1..d];
        CutWindow(log, c + 1, d, at);
      }
    }
  }

  /** What the first `n` events of the log have of a window. */
  function Upto(log: seq<LogInfo>, from: nat, to: nat, n: nat): seq<LogInfo>
    requires from <= to <= |log| && n <= |log|
  {
    if n <= from then [] else if n <= to then log[from..n] else log[from..to]
  }

  lemma UptoStep(log: seq<LogInfo>, from: nat, to: nat, n: nat)
    requires from <= to <= |log| && 0 < n <= |log|
    ensures Upto(log, from, to, n) == Upto(log, from, to, n - 1) + if from <= n - 1 < to then [log[n-1]] else []
  {
  }

  lemma InEitherStep(log: seq<LogInfo>, a: nat, b: nat, c: nat, d: nat, n: nat)
    requires n <= |log|
    ensures InEither(log, a, b, c, d, n) ==
      if n == 0 then []
      else InEither(log, a, b, c, d, n - 1) + if a <= n - 1 < b || c <= n - 1 < d then [log[n-1]] else []
  {
  }

  lemma {:induction false} InEitherSplits(log: seq<LogInfo>, a: nat, b: nat, c: nat, d: nat, n: nat)
    requires a <= c && a <= b <= d <= |log| && c <= d && n <= |log|
    ensures InEither(log, a, b, c, d, n) == Upto(log, a, b, n) + Upto(log, if c < b then b else c, d, n)
  {
    hide Upto, InEither;
    var from := if c < b then b else c;
    InEitherStep(log, a, b, c, d, n);
    if n > 0 {
      var first, second := Upto(log, a, b, n - 1), Upto(log, from, d, n - 1);
      InEitherSplits(log, a, b, c, d, n - 1);
      UptoStep(log, a, b, n);
      UptoStep(log, from, d, n);
      if a <= n - 1 < b {
        UptoBefore(log, from, d, n - 1);
        assert first + [] + [log[n-1]] == first + [log[n-1]] + [];
      } else if from <= n - 1 < d {
        assert first + second + [log[n-1]] == first + (second + [log[n-1]]);
      }
    } else {
      UptoBefore(log, a, b, n);
      UptoBefore(log, from, d, n);
    }
  }

  lemma UptoBefore(log: seq<LogInfo>, from: nat, to: nat, n: nat)
    requires n <= from <= to <= |log|
    ensures Upto(log, from, to, n) == []
  {
  }

  lemma {:induction false} InEitherNested(log: seq<LogInfo>, a: nat, b: nat, c: nat, d: nat, n: nat)
    requires a <= c && d <= b && a <= b <= |log| && n <= |log|
    ensures InEither(log, a, b, c, d, n) == Upto(log, a, b, n)
  {
    hide Upto, InEither;
    InEitherStep(log, a, b, c, d, n);
    if n > 0 {
      InEitherNested(log, a, b, c, d, n - 1);
      UptoStep(log, a, b, n);
    } else {
      UptoBefore(log, a, b, n);
    }
  }

  lemma {:induction false} InEitherSwaps(log: seq<LogInfo>, a: nat, b: nat, c: nat, d: nat, n: nat)
    requires n <= |log|
    ensures InEither(log, a, b, c, d, n) == InEither(log, c, d, a, b, n)
  {
    hide InEither;
    InEitherStep(log, a, b, c, d, n);
    InEitherStep(log, c, d, a, b, n);
    if n > 0 {
      InEitherSwaps(log, a, b, c, d, n - 1);
    }
  }

  lemma JoinedAlike(t1: seq<LogInfo>, t2: seq<LogInfo>)
    requires t1 != [] && t2 != []
    ensures SameUpToLastCtx(Joined(t1, t2), t1 + t2)
  {
  }

  /** What the merge of two windows is, the first of which does not start later. */
  lemma MergedWindows(log: seq<LogInfo>, a: nat, b: nat, c: nat, d: nat)
    requires IsAscending(log) && a < b <= |log| && c < d <= |log| && At(log, a) <= At(log, c)
    ensures var end1 := At(log, b - 1); var k := FirstAfter(log, c, end1);
      if At(log, a) == At(log, c) then
        MergedInOrder(log[a..b], log[c..d]) == if end1 < At(log, d - 1) then log[c..d] else log[a..b]
      else if end1 >= At(log, d - 1) then MergedInOrder(log[a..b], log[c..d]) == log[a..b]
      else
        && (end1 > At(log, c) ==> k < d)
        && MergedInOrder(log[a..b], log[c..d]) == Joined(log[a..b], log[if end1 > At(log, c) then k else c..d])
  {
    hide FirstTime, LastTime, CutAt, Joined, FirstAfter, IsAscending, At;
    WindowDated(log, a, b);
    WindowDated(log, c, d);
    var t1, t2 := log[a..b], log[c..d];
    var end1 := LastTime(t1);
    if FirstTime(t1) != FirstTime(t2) && end1 < LastTime(t2) && end1 > FirstTime(t2) {
      CutWindow(log, c, d, end1);
      AfterInWindow(log, c, d, end1);
      assert CutAt(t2, end1) == log[FirstAfter(log, c, end1)..d];
    }
  }

  lemma WindowDated(log: seq<LogInfo>, a: nat, b: nat)
    requires IsAscending(log) && a < b <= |log|
    ensures IsDated(log[a]) && IsDated(log[b-1])
    ensures log[a..b] != [] && FirstTime(log[a..b]) == At(log, a) && LastTime(log[a..b]) == At(log, b - 1)
  {
    WindowTimes(log, a, b);
  }

  lemma AfterInWindow(log: seq<LogInfo>, c: nat, d: nat, at: Time)
    requires c < d <= |log| && IsDated(log[d-1]) && At(log, d - 1) > at
    ensures FirstAfter(log, c, at) < d
  {
  }

  /** What the union of two windows is. */
  lemma UnionWindows(log: seq<LogInfo>, a: nat, b: nat, c: nat, d: nat)
    requires a < b <= |log| && c < d <= |log| && a <= c
    ensures OrderedUnion(log, a, b, c, d) ==
      if d <= b then log[a..b] else log[a..b] + log[if c < b then b else c..d]
  {
    hide InEither;
    if d <= b {
      InEitherNested(log, a, b, c, d, |log|);
    } else {
      InEitherSplits(log, a, b, c, d, |log|);
    }
  }

  /** Of two windows, the second of which starts at a later instant: the merge is their ordered union. */
  ghost predicate MergesInOrder(log: seq<LogInfo>, a: nat, b: nat, c: nat, d: nat)
    requires IsAscending(log) && a < b <= |log| && c < d <= |log|
  {
    if At(log, b - 1) >= At(log, d - 1) then d <= b
    else if At(log, b - 1) > At(log, c) then At(log, b) > At(log, b - 1)
    else b <= c
  }

  /** Of two windows that start at one instant. */
  ghost predicate MergesTogether(log: seq<LogInfo>, a: nat, b: nat, c: nat, d: nat)
    requires IsAscending(log) && a < b <= |log| && c < d <= |log|
  {
    if At(log, b - 1) < At(log, d - 1) then c <= a else a <= c && d <= b
  }

  /**
    Two files merge well: one that starts later lies in the other if it does not end later, goes on after it
    if it does not reach into it, and else reaches into one that does not end within an instant; of two that
    start at one instant, the one that is kept has the other.
   */
  ghost predicate MergesWell(log: seq<LogInfo>, a: nat, b: nat, c: nat, d: nat)
    requires IsAscending(log) && a <= b <= |log| && c <= d <= |log|
  {
    if a == b || c == d then true
    else if At(log, a) < At(log, c) then MergesInOrder(log, a, b, c, d)
    else if At(log, c) < At(log, a) then MergesInOrder(log, c, d, a, b)
    else MergesTogether(log, a, b, c, d)
  }

  lemma MergeInOrderExact(log: seq<LogInfo>, a: nat, b: nat, c: nat, d: nat)
    requires IsAscending(log) && a < b <= |log| && c < d <= |log| && At(log, a) < At(log, c)
    ensures SameUpToLastCtx(MergedInOrder(log[a..b], log[c..d]), OrderedUnion(log, a, b, c, d)) <==>
      MergesInOrder(log, a, b, c, d)
  {
    hide MergedInOrder, OrderedUnion, Joined, SameUpToLastCtx, IsAscending, FirstAfter;
    Ordered(log, a, c);
    Ordered(log, b - 1, d - 1);
    Ordered(log, c, b - 1);
    Ordered(log, b - 1, c);
    MergedWindows(log, a, b, c, d);
    UnionWindows(log, a, b, c, d);
    var end1 := At(log, b - 1);
    if end1 >= At(log, d - 1) {
      LongerDiffers(log[a..b], if d <= b then [] else log[if c < b then b else c..d]);
    } else {
      var k := if end1 > At(log, c) then FirstAfter(log, c, end1) else c;
      if end1 > At(log, c) {
        AfterEnd(log, b, c, d);
      }
      JoinedFrom(log, a, b, k, if c < b then b else c, d);
    }
  }

  lemma Ordered(log: seq<LogInfo>, i: nat, j: nat)
    requires IsAscending(log) && i < |log| && j < |log|
    ensures IsDated(log[i]) && IsDated(log[j]) && (At(log, i) < At(log, j) ==> i < j)
  {
  }

  lemma LongerDiffers(s: seq<LogInfo>, rest: seq<LogInfo>)
    ensures SameUpToLastCtx(s, s)
    ensures SameUpToLastCtx(s, s + rest) <==> rest == []
  {
    assert s + [] == s;
  }

  /** What is later than a window that ends with event `b - 1`. */
  lemma AfterEnd(log: seq<LogInfo>, b: nat, c: nat, d: nat)
    requires IsAscending(log) && c < b < d <= |log|
    ensures FirstAfter(log, c, At(log, b - 1)) == b <==> At(log, b) > At(log, b - 1)
  {
  }

  lemma JoinedFrom(log: seq<LogInfo>, a: nat, b: nat, k: nat, m: nat, d: nat)
    requires a < b <= |log| && k < d <= |log| && m <= d
    ensures SameUpToLastCtx(Joined(log[a..b], log[k..d]), log[a..b] + log[m..d]) <==> k == m
  {
    hide Joined;
    JoinedAlike(log[a..b], log[k..d]);
  }

  lemma MergeTogetherExact(log: seq<LogInfo>, a: nat, b: nat, c: nat, d: nat)
    requires IsAscending(log) && a < b <= |log| && c < d <= |log| && At(log, a) == At(log, c)
    ensures SameUpToLastCtx(MergedInOrder(log[a..b], log[c..d]), OrderedUnion(log, a, b, c, d)) <==>
      MergesTogether(log, a, b, c, d)
  {
    hide MergedInOrder, InEither;
    MergedWindows(log, a, b, c, d);
    if a <= c {
      UnionWindows(log, a, b, c, d);
      assert a == c && b < d ==> log[a..b] + log[b..d] == log[c..d];
    } else {
      InEitherSwaps(log, a, b, c, d, |log|);
      UnionWindows(log, c, d, a, b);
    }
  }

  /**
    Merging two windows of one log, in either order, gives the events of both, each once and in order, up to
    the last context, exactly when they merge well. Otherwise an event is lost or kept twice.
   */
  lemma MergeExact(log: seq<LogInfo>, a: nat, b: nat, c: nat, d: nat)
    requires IsAscending(log) && a <= b <= |log| && c <= d <= |log|
    ensures SameUpToLastCtx(Merged(log[a..b], log[c..d]), OrderedUnion(log, a, b, c, d)) <==>
      MergesWell(log, a, b, c, d)
  {
    hide InEither, MergedInOrder, FirstTime, LastTime, MergesInOrder, MergesTogether;
    InEitherSwaps(log, a, b, c, d, |log|);
    if a == b || c == d {
      InEitherOne(log, a, b, c, d, |log|);
    } else {
      WindowTimes(log, a, b);
      WindowTimes(log, c, d);
      if At(log, a) < At(log, c) {
        MergeInOrderExact(log, a, b, c, d);
      } else if At(log, c) < At(log, a) {
        MergeInOrderExact(log, c, d, a, b);
      } else {
        MergeTogetherExact(log, a, b, c, d);
      }
    }
  }

  lemma DistinctMergeWell(log: seq<LogInfo>, a: nat, b: nat, c: nat, d: nat)
    requires IsLog(log) && a <= b <= |log| && c <= d <= |log|
    ensures IsAscending(log)
    ensures a < b && c < d ==> (At(log, a) < At(log, c) <==> a < c) && (At(log, b - 1) < At(log, d - 1) <==> b < d)
    ensures MergesWell(log, a, b, c, d) <==> !ShareOneBoundary(a, b, c, d)
  {
  }

  /**
    If no two events share an instant, the one exception is that the windows share exactly one boundary
    event: then that event is kept twice.
   */
  lemma MergeWindows(log: seq<LogInfo>, a: nat, b: nat, c: nat, d: nat)
    requires IsLog(log) && a <= b <= |log| && c <= d <= |log|
    ensures var r := Merged(log[a..b], log[c..d]);
      && (SameUpToLastCtx(r, OrderedUnion(log, a, b, c, d)) <==> !ShareOneBoundary(a, b, c, d))
      && (ShareOneBoundary(a, b, c, d) ==>
           SameUpToLastCtx(r, if a < c then log[a..b] + log[c..d] else log[c..d] + log[a..b]))
  {
    hide InEither, MergedInOrder, FirstTime, LastTime, MergesWell, SameUpToLastCtx, IsLog;
    DistinctMergeWell(log, a, b, c, d);
    MergeExact(log, a, b, c, d);
    if ShareOneBoundary(a, b, c, d) {
      DistinctMergeWell(log, c, d, a, b);
      WindowTimes(log, a, b);
      WindowTimes(log, c, d);
      if a < c {
        BoundaryJoined(log, a, b, c, d);
      } else {
        BoundaryJoined(log, c, d, a, b);
      }
    }
  }

  lemma BoundaryJoined(log: seq<LogInfo>, a: nat, b: nat, c: nat, d: nat)
    requires IsLog(log) && a < c && b == c + 1 && b < d <= |log|
    ensures SameUpToLastCtx(MergedInOrder(log[a..b], log[c..d]), log[a..b] + log[c..d])
  {
    hide MergedInOrder, Joined;
    MergedWindows(log, a, b, c, d);
    JoinedAlike(log[a..b], log[c..d]);
  }

  lemma {:induction false} InEitherOne(log: seq<LogInfo>, a: nat, b: nat, c: nat, d: nat, n: nat)
    requires a <= b <= |log| && c <= d <= |log| && (a == b || c == d) && n <= |log|
    ensures InEither(log, a, b, c, d, n) == if c == d then Upto(log, a, b, n) else Upto(log, c, d, n)
  {
    hide Upto, InEither;
    InEitherStep(log, a, b, c, d, n);
    if n > 0 {
      InEitherOne(log, a, b, c, d, n - 1);
      UptoStep(log, a, b, n);
      UptoStep(log, c, d, n);
    } else {
      UptoBefore(log, a, b, n);
      UptoBefore(log, c, d, n);
    }
  }

  /** Two windows of three events, cut at the second, are merged into four events. */
  lemma BoundaryKeptTwice(log: seq<LogInfo>)
    requires IsLog(log) && |log| == 3
    ensures |OrderedUnion(log, 0, 2, 1, 3)| == 3
    ensures var r := Merged(log[0..2], log[1..3]); |r| == 4 && r[1] == r[2] == log[1]
  {
    hide Merged, InEither;
    MergeWindows(log, 0, 2, 1, 3);
    var both := log[0..2] + log[1..3];
    assert both[1] == log[1] && both[2] == log[1];
    UnionWindows(log, 0, 2, 1, 3);
  }

  /** Five events, the third and fourth at one instant: a file that ends between them hides the fourth. */
  lemma EventLost(log: seq<LogInfo>)
    requires IsAscending(log) && |log| == 5
    requires At(log, 0) < At(log, 1) < At(log, 2) == At(log, 3) < At(log, 4)
    ensures var r := Merged(log[0..3], log[1..5]);
      && |r| == 4 && r[..3] == log[..3] && SameEventUpToCtx(r[3], log[4])
      && |OrderedUnion(log, 0, 3, 1, 5)| == 5
  {
    hide InEither, MergedInOrder, FirstTime, LastTime, Joined;
    WindowTimes(log, 0, 3);
    WindowTimes(log, 1, 5);
    MergedWindows(log, 0, 3, 1, 5);
    assert FirstAfter(log, 1, At(log, 2)) == 4;
    JoinedAlike(log[0..3], log[4..5]);
    UnionWindows(log, 0, 3, 1, 5);
  }

  /** Four events, the middle two at one instant: files that both have them keep both twice. */
  lemma InstantKeptTwice(log: seq<LogInfo>)
    requires IsAscending(log) && |log| == 4
    requires At(log, 0) < At(log, 1) == At(log, 2) < At(log, 3)
    ensures |Merged(log[0..3], log[1..4])| == 6 && |OrderedUnion(log, 0, 3, 1, 4)| == 4
  {
    hide InEither, MergedInOrder, FirstTime, LastTime, Joined;
    WindowTimes(log, 0, 3);
    WindowTimes(log, 1, 4);
    MergedWindows(log, 0, 3, 1, 4);
    JoinedAlike(log[0..3], log[1..4]);
    UnionWindows(log, 0, 3, 1, 4);
  }

  predicate SameEventUpToCtx(x: LogInfo, y: LogInfo) {
    x.(logCtx := y.logCtx) == y
  }
}
