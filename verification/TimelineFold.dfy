/** Merging all the log files of a node, one after another (timeline.go). */
module TimelineFold {
  import opened Translations
  import opened LogEvents
  import opened TimelineMerge

  class Nodes {
    var timeline: map<string, LocalTimeline>

    constructor ()
      ensures timeline == map[]
    {
      timeline := map[];
    }

    /** Merges one more file into the timeline of its node; no other node gets another timeline. */
    method MergeByIdentifier(node: string, lt: LocalTimeline)
      modifies this, lt, if node in timeline then {timeline[node]} else {}
      ensures timeline.Keys == old(timeline.Keys) + {node}
      ensures forall other :: other in old(timeline) && other != node ==> timeline[other] == old(timeline[other])
      ensures timeline[node].events ==
        Merged(if node in old(timeline) then old(timeline[node].events) else [], old(lt.events))
    {
      var merged := lt;
      if node in timeline {
        merged := MergeTimeline(timeline[node], lt);
      }
      timeline := timeline[node := merged];
    }
  }

  /** The timeline after a list of files. */
  function Folded(files: seq<seq<LogInfo>>): seq<LogInfo> {
    if files == [] then [] else Merged(Folded(files[..|files|-1]), files[|files|-1])
  }

  // ---------- events up to their contexts ----------

  predicate SameButContext(x: LogInfo, y: LogInfo) {
    x.(logCtx := y.logCtx) == y && x.logCtx.fileType == y.logCtx.fileType
  }

  ghost predicate Alike(r: seq<LogInfo>, s: seq<LogInfo>) {
    |r| == |s| && forall i :: 0 <= i < |r| ==> SameButContext(r[i], s[i])
  }

  lemma {:induction false} FirstTimeAlike(r: seq<LogInfo>, s: seq<LogInfo>)
    requires Alike(r, s)
    ensures FirstTime(r) == FirstTime(s)
    decreases |r|
  {
    if r != [] {
      assert SameButContext(r[0], s[0]);
      if !IsDated(r[0]) {
        FirstTimeAlike(r[1..], s[1..]);
      }
    }
  }

  lemma {:induction false} LastTimeAlike(r: seq<LogInfo>, s: seq<LogInfo>)
    requires Alike(r, s)
    ensures LastTime(r) == LastTime(s)
    decreases |r|
  {
    if r != [] {
      var n := |r| - 1;
      assert SameButContext(r[n], s[n]);
      if !IsDated(r[n]) {
        LastTimeAlike(r[..n], s[..n]);
      }
    }
  }

  lemma {:induction false} CutAlike(r: seq<LogInfo>, s: seq<LogInfo>, at: Time)
    requires Alike(r, s)
    ensures Alike(CutAt(r, at), CutAt(s, at))
    decreases |r|
  {
    if r != [] {
      assert SameButContext(r[0], s[0]);
      if !IsAfter(r[0], at) {
        CutAlike(r[1..], s[1..], at);
      }
    }
  }

  lemma JoinAlike(r: seq<LogInfo>, s: seq<LogInfo>, v: seq<LogInfo>, w: seq<LogInfo>)
    requires Alike(r, s) && Alike(v, w) && r != [] && v != []
    ensures Alike(Joined(r, v), Joined(s, w)) && Alike(Joined(r, v), s + w)
  {
  }

  lemma MergedInOrderAlike(r: seq<LogInfo>, s: seq<LogInfo>, v: seq<LogInfo>, w: seq<LogInfo>)
    requires Alike(r, s) && Alike(v, w) && r != [] && v != []
    ensures Alike(MergedInOrder(r, v), MergedInOrder(s, w))
  {
    hide FirstTime, LastTime, CutAt, Joined, Alike;
    SameLength(r, s);
    SameLength(v, w);
    FirstTimeAlike(r, s);
    FirstTimeAlike(v, w);
    LastTimeAlike(r, s);
    LastTimeAlike(v, w);
    if FirstTime(r) != FirstTime(v) && LastTime(r) < LastTime(v) {
      JoinAlike(r, s, v, w);
      if LastTime(r) > FirstTime(v) {
        CutLeavesSome(r, v);
        CutAlike(v, w, LastTime(r));
        JoinAlike(r, s, CutAt(v, LastTime(r)), CutAt(w, LastTime(r)));
      }
    }
  }

  lemma SameLength(r: seq<LogInfo>, s: seq<LogInfo>)
    requires Alike(r, s)
    ensures r == [] <==> s == []
  {
  }

  /** What is merged does not depend on contexts, up to contexts. */
  lemma MergedAlike(r: seq<LogInfo>, s: seq<LogInfo>, w: seq<LogInfo>)
    requires Alike(r, s)
    ensures Alike(Merged(r, w), Merged(s, w))
  {
    hide FirstTime, LastTime, MergedInOrder, Alike;
    SameLength(r, s);
    AlikeItself(w);
    if r != [] && w != [] {
      FirstTimeAlike(r, s);
      MergedInOrderAlike(r, s, w, w);
      MergedInOrderAlike(w, w, r, s);
    }
  }

  lemma AlikeItself(w: seq<LogInfo>)
    ensures Alike(w, w)
  {
  }

  lemma AlikeTrans(r: seq<LogInfo>, s: seq<LogInfo>, t: seq<LogInfo>)
    requires Alike(r, s) && Alike(s, t)
    ensures Alike(r, t)
  {
    forall i | 0 <= i < |r|
      ensures SameButContext(r[i], t[i])
    {
      assert SameButContext(r[i], s[i]) && SameButContext(s[i], t[i]);
    }
  }

  // ---------- events picked from a log ----------

  ghost predicate Ascends(picks: seq<nat>) {
    forall i, j :: 0 <= i < j < |picks| ==> picks[i] < picks[j]
  }

  ghost predicate Within(picks: seq<nat>, n: nat) {
    forall i :: 0 <= i < |picks| ==> picks[i] < n
  }

  function Picked(log: seq<LogInfo>, picks: seq<nat>): (r: seq<LogInfo>)
    requires Within(picks, |log|)
    ensures |r| == |picks| && forall i :: 0 <= i < |picks| ==> r[i] == log[picks[i]]
  {
    seq(|picks|, i requires 0 <= i < |picks| => log[picks[i]])
  }

  /** The positions from `c` up to `d`. */
  function Range(c: nat, d: nat): (r: seq<nat>)
    ensures |r| == (if c <= d then d - c else 0) && forall i :: 0 <= i < |r| ==> r[i] == c + i
  {
    seq(if c <= d then d - c else 0, i requires 0 <= i => c + i)
  }

  /** The positions from the first one above `k` on. */
  function Above(picks: seq<nat>, k: nat): (r: seq<nat>)
    ensures |r| <= |picks| && r == picks[|picks| - |r|..]
    ensures forall i :: 0 <= i < |picks| - |r| ==> picks[i] <= k
    ensures r != [] ==> r[0] > k
  {
    if picks == [] || picks[0] > k then picks else Above(picks[1..], k)
  }

  /** The positions kept when two files are merged, the second of which does not start earlier. */
  function PicksInOrder(p: seq<nat>, q: seq<nat>): seq<nat>
    requires p != [] && q != []
  {
    var end1, end2 := p[|p|-1], q[|q|-1];
    if p[0] == q[0] then (if end1 < end2 then q else p)
    else if end1 >= end2 then p
    else p + if end1 > q[0] then Above(q, end1) else q
  }

  /** The positions kept when two files of one log are merged. */
  function MergedPicks(p: seq<nat>, q: seq<nat>): seq<nat> {
    if p == [] then q else if q == [] then p
    else if p[0] > q[0] then PicksInOrder(q, p) else PicksInOrder(p, q)
  }

  lemma PickedTimes(log: seq<LogInfo>, picks: seq<nat>)
    requires IsLog(log) && Within(picks, |log|) && picks != []
    ensures FirstTime(Picked(log, picks)) == At(log, picks[0])
    ensures LastTime(Picked(log, picks)) == At(log, picks[|picks|-1])
  {
    var r := Picked(log, picks);
    assert IsDated(r[0]) && IsDated(r[|r|-1]);
  }

  lemma {:induction false} PickedCut(log: seq<LogInfo>, picks: seq<nat>, k: nat)
    requires IsLog(log) && Within(picks, |log|) && k < |log|
    ensures Within(Above(picks, k), |log|)
    ensures CutAt(Picked(log, picks), At(log, k)) == Picked(log, Above(picks, k))
    decreases |picks|
  {
    if picks != [] {
      var r := Picked(log, picks);
      assert r[0] == log[picks[0]];
      assert IsAfter(r[0], At(log, k)) <==> picks[0] > k by {
        assert picks[0] < k ==> At(log, picks[0]) < At(log, k);
        assert picks[0] > k ==> At(log, picks[0]) > At(log, k);
      }
      if picks[0] <= k {
        assert r[1..] == Picked(log, picks[1..]);
        PickedCut(log, picks[1..], k);
      }
    }
  }

  lemma PickedParts(log: seq<LogInfo>, p: seq<nat>, q: seq<nat>)
    requires Within(p, |log|) && Within(q, |log|)
    ensures Within(p + q, |log|) && Picked(log, p + q) == Picked(log, p) + Picked(log, q)
  {
  }

  /** The dates of a log order its positions. */
  lemma DatesCompare(log: seq<LogInfo>, i: nat, j: nat)
    requires IsLog(log) && i < |log| && j < |log|
    ensures IsDated(log[i]) && IsDated(log[j])
    ensures (At(log, i) < At(log, j) <==> i < j) && (At(log, i) == At(log, j) <==> i == j)
  {
  }

  lemma PickedLength(log: seq<LogInfo>, picks: seq<nat>)
    requires Within(picks, |log|)
    ensures Picked(log, picks) == [] <==> picks == []
  {
  }

  lemma JoinedPicks(log: seq<LogInfo>, p: seq<nat>, q: seq<nat>)
    requires Within(p, |log|) && Within(q, |log|) && p != [] && q != []
    ensures Within(p + q, |log|)
    ensures Alike(Joined(Picked(log, p), Picked(log, q)), Picked(log, p + q))
  {
    PickedParts(log, p, q);
    JoinAlike(Picked(log, p), Picked(log, p), Picked(log, q), Picked(log, q));
  }

  /** Merging picked events with picked events that do not start before them. */
  lemma MergedInOrderPicks(log: seq<LogInfo>, p: seq<nat>, q: seq<nat>)
    requires IsLog(log) && Within(p, |log|) && Within(q, |log|) && p != [] && q != [] && p[0] <= q[0]
    ensures var r := PicksInOrder(p, q);
      Within(r, |log|) && Alike(MergedInOrder(Picked(log, p), Picked(log, q)), Picked(log, r))
  {
    hide FirstTime, LastTime, CutAt, Joined, Alike, Above, IsLog, At, Within, Picked;
    InLog(log, p);
    InLog(log, q);
    var end1, end2 := p[|p|-1], q[|q|-1];
    var t1, t2 := Picked(log, p), Picked(log, q);
    PickedTimes(log, p);
    PickedTimes(log, q);
    DatesCompare(log, p[0], q[0]);
    DatesCompare(log, end1, end2);
    DatesCompare(log, q[0], end1);
    AlikeItself(t1);
    AlikeItself(t2);
    PickedLength(log, p);
    PickedLength(log, q);
    if p[0] < q[0] && end1 < end2 {
      if end1 > q[0] {
        CutLeavesSome(t1, t2);
        PickedCut(log, q, end1);
        PickedLength(log, Above(q, end1));
        JoinedPicks(log, p, Above(q, end1));
      } else {
        JoinedPicks(log, p, q);
      }
    }
  }

  /** Merging two files of one log keeps the events at these positions, up to contexts. */
  lemma MergeOfPicks(log: seq<LogInfo>, r: seq<LogInfo>, p: seq<nat>, q: seq<nat>)
    requires IsLog(log) && Within(p, |log|) && Within(q, |log|) && Alike(r, Picked(log, p))
    ensures Within(MergedPicks(p, q), |log|)
    ensures Alike(Merged(r, Picked(log, q)), Picked(log, MergedPicks(p, q)))
  {
    hide FirstTime, LastTime, Alike, MergedInOrder, PicksInOrder, IsLog, At, Within;
    var t, w := Picked(log, p), Picked(log, q);
    MergedAlike(r, t, w);
    AlikeItself(t);
    AlikeItself(w);
    if p != [] && q != [] {
      InLog(log, p);
      InLog(log, q);
      PickedTimes(log, p);
      PickedTimes(log, q);
      DatesCompare(log, p[0], q[0]);
      if p[0] > q[0] {
        MergedInOrderPicks(log, q, p);
      } else {
        MergedInOrderPicks(log, p, q);
      }
    }
    AlikeTrans(Merged(r, w), Merged(t, w), Picked(log, MergedPicks(p, q)));
  }

  lemma InLog(log: seq<LogInfo>, picks: seq<nat>)
    requires Within(picks, |log|) && picks != []
    ensures picks[0] < |log| && picks[|picks|-1] < |log|
  {
  }

  // ---------- when nothing is lost or kept twice ----------

  function Elements(picks: seq<nat>): set<nat> {
    set k | k in picks
  }

  /** All positions of both, each once, in order. */
  ghost predicate IsUnion(r: seq<nat>, p: seq<nat>, q: seq<nat>) {
    Ascends(r) && Elements(r) == Elements(p) + Elements(q)
  }

  /**
    The second file starts later. It fills no gap that the first has left, and does not touch it in its last
    event only.
   */
  ghost predicate FillsNoGap(p: seq<nat>, q: seq<nat>)
    requires p != [] && q != []
  {
    var end1, end2 := p[|p|-1], q[|q|-1];
    && (forall k :: k in q && k <= end1 ==> k in p)
    && !(end1 == q[0] && end1 < end2)
  }

  /** Two files merge well: the one that starts later fills no gap; of two that start together, one has the other. */
  ghost predicate FitTogether(p: seq<nat>, q: seq<nat>) {
    if p == [] || q == [] then true
    else if p[0] < q[0] then FillsNoGap(p, q)
    else if q[0] < p[0] then FillsNoGap(q, p)
    else if p[|p|-1] < q[|q|-1] then Elements(p) <= Elements(q)
    else Elements(q) <= Elements(p)
  }

  lemma Bounds(p: seq<nat>)
    requires Ascends(p) && p != []
    ensures forall k :: k in p ==> p[0] <= k <= p[|p|-1]
    ensures p[0] in p && p[|p|-1] in p
  {
  }

  lemma {:induction false} AboveAll(q: seq<nat>, end: nat)
    requires Ascends(q)
    ensures Ascends(Above(q, end)) && forall k :: k in Above(q, end) <==> k in q && k > end
    decreases |q|
  {
    hide Ascends, Above;
    AboveStep(q, end);
    if q != [] {
      Bounds(q);
      if q[0] <= end {
        AscendsTail(q);
        AboveAll(q[1..], end);
        assert forall k :: k in q <==> k == q[0] || k in q[1..];
      }
    }
  }

  lemma AboveStep(q: seq<nat>, end: nat)
    ensures Above(q, end) == if q == [] || q[0] > end then q else Above(q[1..], end)
  {
  }

  lemma AscendsTail(q: seq<nat>)
    requires Ascends(q) && q != []
    ensures Ascends(q[1..])
  {
  }

  lemma InElements(p: seq<nat>)
    ensures forall k :: k in Elements(p) <==> k in p
  {
  }

  /** Positions put one after the other ascend exactly when the second ones all come later. */
  lemma AscendsConcat(p: seq<nat>, q: seq<nat>)
    requires Ascends(p) && Ascends(q) && p != [] && q != []
    ensures Ascends(p + q) <==> p[|p|-1] < q[0]
    ensures Elements(p + q) == Elements(p) + Elements(q)
  {
    var r, n := p + q, |p|;
    assert r[n-1] == p[n-1] && r[n] == q[0];
    if p[n-1] < q[0] {
      Bounds(p);
      Bounds(q);
      forall i, j | 0 <= i < j < |r|
        ensures r[i] < r[j]
      {
        assert i < n ==> p[i] in p;
        assert j >= n ==> q[j-n] in q;
      }
    }
  }

  /** The second file reaches into the first and goes on after it. */
  lemma OverlapExact(p: seq<nat>, q: seq<nat>)
    requires Ascends(p) && Ascends(q) && p != [] && q != []
    requires q[0] < p[|p|-1] < q[|q|-1]
    ensures IsUnion(p + Above(q, p[|p|-1]), p, q) <==> FillsNoGap(p, q)
  {
    hide Above, Ascends, Elements;
    var end1 := p[|p|-1];
    var rest := Above(q, end1);
    Bounds(q);
    AboveAll(q, end1);
    assert q[|q|-1] in rest;
    assert rest[0] in rest;
    AscendsConcat(p, rest);
    InElements(p);
    InElements(q);
    InElements(rest);
    SameUnion(Elements(p), Elements(q), Elements(rest), end1);
  }

  lemma SameUnion(p: set<nat>, q: set<nat>, rest: set<nat>, end: nat)
    requires forall k :: k in rest <==> k in q && k > end
    ensures p + rest == p + q <==> forall k :: k in q && k <= end ==> k in p
  {
    if p + rest == p + q {
      forall k | k in q && k <= end
        ensures k in p
      {
        assert k in p + q && k !in rest;
      }
    }
  }

  lemma Covered(p: set<nat>, q: set<nat>)
    ensures p == p + q <==> q <= p
  {
    assert q <= p + q;
  }

  lemma InOrderExact(p: seq<nat>, q: seq<nat>)
    requires Ascends(p) && Ascends(q) && p != [] && q != [] && p[0] < q[0]
    ensures IsUnion(PicksInOrder(p, q), p, q) <==> FillsNoGap(p, q)
  {
    hide Above, Elements, Ascends;
    var end1, end2 := p[|p|-1], q[|q|-1];
    Bounds(q);
    if end1 >= end2 {
      Covered(Elements(p), Elements(q));
      InElements(p);
      InElements(q);
    } else if end1 > q[0] {
      OverlapExact(p, q);
    } else {
      Bounds(p);
      AscendsConcat(p, q);
    }
  }

  /** The merge of two files of one log has the events of both, each once and in order, exactly when they fit. */
  lemma MergedPicksExact(p: seq<nat>, q: seq<nat>)
    requires Ascends(p) && Ascends(q)
    ensures IsUnion(MergedPicks(p, q), p, q) <==> FitTogether(p, q)
  {
    hide Above;
    if p == [] || q == [] {
      assert Elements([]) == {};
    } else if p[0] < q[0] {
      InOrderExact(p, q);
    } else if q[0] < p[0] {
      InOrderExact(q, p);
    } else {
      assert Elements(q) <= Elements(p) <==> Elements(p) == Elements(p) + Elements(q);
      assert Elements(p) <= Elements(q) <==> Elements(q) == Elements(p) + Elements(q);
    }
  }

  // ---------- all files of a node ----------

  /** The positions kept after a list of files. */
  function FoldedPicks(files: seq<seq<nat>>): seq<nat> {
    if files == [] then [] else MergedPicks(FoldedPicks(files[..|files|-1]), files[|files|-1])
  }

  ghost predicate AreFiles(log: seq<LogInfo>, files: seq<seq<nat>>) {
    forall i :: 0 <= i < |files| ==> Ascends(files[i]) && Within(files[i], |log|)
  }

  function Contents(log: seq<LogInfo>, files: seq<seq<nat>>): (r: seq<seq<LogInfo>>)
    requires forall i :: 0 <= i < |files| ==> Within(files[i], |log|)
    ensures |r| == |files| && forall i :: 0 <= i < |files| ==> r[i] == Picked(log, files[i])
  {
    seq(|files|, i requires 0 <= i < |files| => Picked(log, files[i]))
  }

  /** Whatever the files, the timeline of a node has the events at these positions, up to contexts. */
  lemma {:induction false} FoldOfFiles(log: seq<LogInfo>, files: seq<seq<nat>>)
    requires IsLog(log) && AreFiles(log, files)
    ensures Within(FoldedPicks(files), |log|)
    ensures Alike(Folded(Contents(log, files)), Picked(log, FoldedPicks(files)))
  {
    hide IsLog, Merged, MergedPicks, Within, Picked, Ascends;
    if files == [] {
      NoFiles(log);
    } else {
      var before, last := files[..|files|-1], files[|files|-1];
      FoldOfFiles(log, before);
      assert Contents(log, files)[..|files|-1] == Contents(log, before);
      MergeOfPicks(log, Folded(Contents(log, before)), FoldedPicks(before), last);
    }
  }

  lemma NoFiles(log: seq<LogInfo>)
    ensures Within([], |log|) && Alike([], Picked(log, []))
  {
  }

  function AllPicks(files: seq<seq<nat>>): set<nat> {
    if files == [] then {} else AllPicks(files[..|files|-1]) + Elements(files[|files|-1])
  }

  /** Every file fits what was merged before it. */
  ghost predicate AllFit(files: seq<seq<nat>>) {
    files != [] ==> AllFit(files[..|files|-1]) && FitTogether(FoldedPicks(files[..|files|-1]), files[|files|-1])
  }

  /** If every file fits what was merged before it, the timeline has the events of all, each once and in order. */
  lemma {:induction false} FoldIsUnion(log: seq<LogInfo>, files: seq<seq<nat>>)
    requires AreFiles(log, files) && AllFit(files)
    ensures Ascends(FoldedPicks(files)) && Elements(FoldedPicks(files)) == AllPicks(files)
  {
    if files != [] {
      var before, last := files[..|files|-1], files[|files|-1];
      FoldIsUnion(log, before);
      MergedPicksExact(FoldedPicks(before), last);
    }
  }

  /** A file that fills the gap between two others is dropped: of three events merged so, two are left. */
  lemma GapStaysOpen(log: seq<LogInfo>)
    requires IsLog(log) && |log| == 3
    ensures var files := [[0], [2], [1]];
      && AreFiles(log, files) && Alike(Folded(Contents(log, files)), [log[0], log[2]])
      && AllPicks(files) == {0, 1, 2}
  {
    var files: seq<seq<nat>> := [[0], [2], [1]];
    hide Folded, FoldedPicks, AllPicks, Contents, IsLog, Alike;
    FoldOfFiles(log, files);
    GapPicks();
    assert Picked(log, [0, 2]) == [log[0], log[2]];
  }

  lemma GapPicks()
    ensures FoldedPicks([[0], [2], [1]]) == [0, 2] && AllPicks([[0], [2], [1]]) == {0, 1, 2}
  {
    hide Above;
    var one, two, three: seq<seq<nat>> := [[0]], [[0], [2]], [[0], [2], [1]];
    assert three[..2] == two && two[..1] == one && one[..0] == [];
    assert FoldedPicks(one) == [0] && FoldedPicks(two) == [0, 2];
    assert AllPicks(one) == {0} && AllPicks(two) == {0, 2};
  }

  // ---------- what is known at the end of all files ----------

  /** Files in order of time, each with a date on its first and its last event. */
  ghost predicate InOrderOfTime(files: seq<seq<LogInfo>>) {
    && (forall i :: 0 <= i < |files| ==> HasDatedEnds(files[i]))
    && (forall i, j :: 0 <= i < j < |files| ==>
         files[i][0].date.value < files[j][0].date.value
         && files[i][|files[i]|-1].date.value < files[j][|files[j]|-1].date.value)
  }

  ghost predicate HasDatedEnds(file: seq<LogInfo>) {
    file != [] && IsDated(file[0]) && IsDated(file[|file|-1])
  }

  /** The lists of one kind that the files know at their ends, one after another. */
  function AllKnown(files: seq<seq<LogInfo>>, known: LogCtx -> seq<string>): seq<string> {
    if files == [] then []
    else
      var before, last := files[..|files|-1], files[|files|-1];
      AllKnown(before, known) + if last == [] then [] else known(last[|last|-1].logCtx)
  }

  /** The version known last. */
  function LastVersion(files: seq<seq<LogInfo>>): string {
    if files == [] then ""
    else
      var before, last := files[..|files|-1], files[|files|-1];
      if last != [] && last[|last|-1].logCtx.version != "" then last[|last|-1].logCtx.version else LastVersion(before)
  }

  /** The last context knows what all files knew at their ends. */
  ghost predicate KnowsAll(logCtx: LogCtx, files: seq<seq<LogInfo>>) {
    && logCtx.ownIPs == AllKnown(files, (c: LogCtx) => c.ownIPs)
    && logCtx.ownNames == AllKnown(files, (c: LogCtx) => c.ownNames)
    && logCtx.ownHashes == AllKnown(files, (c: LogCtx) => c.ownHashes)
    && logCtx.conflicts == AllKnown(files, (c: LogCtx) => c.conflicts)
    && logCtx.version == LastVersion(files)
  }

  lemma DatedEnds(file: seq<LogInfo>)
    requires HasDatedEnds(file)
    ensures FirstTime(file) == file[0].date.value && LastTime(file) == file[|file|-1].date.value
  {
  }

  /** A merge of two files in order of time starts and ends where they do. */
  lemma MergedEnds(earlier: seq<LogInfo>, later: seq<LogInfo>)
    requires HasDatedEnds(earlier) && HasDatedEnds(later) && Joins(earlier, later)
    ensures var r := Merged(earlier, later);
      HasDatedEnds(r) && r[0].date == earlier[0].date && r[|r|-1].date == later[|later|-1].date
  {
    hide FirstTime, LastTime, CutAt;
    MergedKnowsBoth(earlier, later);
    if LastTime(earlier) > FirstTime(later) {
      CutLeavesSome(earlier, later);
    }
  }

  /** The timeline starts where the first file does and ends where the last one does. */
  ghost predicate Spans(r: seq<LogInfo>, files: seq<seq<LogInfo>>) {
    && files != [] && HasDatedEnds(r) && HasDatedEnds(files[0]) && HasDatedEnds(files[|files|-1])
    && r[0].date == files[0][0].date
    && r[|r|-1].date == files[|files|-1][|files[|files|-1]|-1].date
  }

  /** For files in order of time, the end of the timeline knows what all files knew at their ends. */
  lemma {:induction false} FoldKnowsAll(files: seq<seq<LogInfo>>)
    requires InOrderOfTime(files) && files != []
    ensures var r := Folded(files); Spans(r, files) && KnowsAll(r[|r|-1].logCtx, files)
  {
    hide FirstTime, LastTime, Merged, KnowsAll, HasDatedEnds, KnowsBoth, InOrderOfTime, Joins;
    var n := |files| - 1;
    var before, last := files[..n], files[n];
    if n == 0 {
      OneFile(files);
    } else {
      InOrderBefore(files);
      FoldKnowsAll(before);
      var r := Folded(before);
      JoinsAtEnd(r, files);
      MergedEnds(r, last);
      MergedKnowsBoth(r, last);
      OneFileMore(files, r[|r|-1].logCtx, Folded(files)[|Folded(files)|-1].logCtx);
    }
  }

  lemma OneFile(files: seq<seq<LogInfo>>)
    requires InOrderOfTime(files) && |files| == 1
    ensures Folded(files) == files[0] && Spans(files[0], files)
    ensures KnowsAll(files[0][|files[0]|-1].logCtx, files)
  {
    assert files[..0] == [];
    assert Folded(files[..0]) == [];
    assert Folded(files) == Merged(Folded(files[..0]), files[0]);
    var c := files[0][|files[0]|-1].logCtx;
    assert [] + c.ownIPs == c.ownIPs && [] + c.ownNames == c.ownNames;
    assert [] + c.ownHashes == c.ownHashes && [] + c.conflicts == c.conflicts;
    assert KnowsAll(c, files);
  }

  lemma InOrderBefore(files: seq<seq<LogInfo>>)
    requires InOrderOfTime(files) && files != []
    ensures InOrderOfTime(files[..|files|-1]) && HasDatedEnds(files[|files|-1])
  {
  }

  lemma JoinsAtEnd(r: seq<LogInfo>, files: seq<seq<LogInfo>>)
    requires InOrderOfTime(files) && |files| > 1 && Spans(r, files[..|files|-1])
    ensures Joins(r, files[|files|-1]) && HasDatedEnds(files[|files|-1])
  {
    hide FirstTime, LastTime;
    DatedEnds(r);
    DatedEnds(files[|files|-1]);
  }

  lemma OneFileMore(files: seq<seq<LogInfo>>, before: LogCtx, after: LogCtx)
    requires files != [] && files[|files|-1] != []
    requires KnowsAll(before, files[..|files|-1])
    requires var last := files[|files|-1]; KnowsBoth(after, before, last[|last|-1].logCtx)
    ensures KnowsAll(after, files)
  {
    hide AllKnown;
    AllKnownStep(files, (c: LogCtx) => c.ownIPs);
    AllKnownStep(files, (c: LogCtx) => c.ownNames);
    AllKnownStep(files, (c: LogCtx) => c.ownHashes);
    AllKnownStep(files, (c: LogCtx) => c.conflicts);
    var last := files[|files|-1];
    var later := last[|last|-1].logCtx;
    assert after.ownIPs == before.ownIPs + later.ownIPs;
    assert after.ownNames == before.ownNames + later.ownNames;
    assert after.ownHashes == before.ownHashes + later.ownHashes;
    assert after.conflicts == before.conflicts + later.conflicts;
  }

  lemma AllKnownStep(files: seq<seq<LogInfo>>, known: LogCtx -> seq<string>)
    requires files != [] && files[|files|-1] != []
    ensures AllKnown(files, known) ==
      AllKnown(files[..|files|-1], known) + known(files[|files|-1][|files[|files|-1]|-1].logCtx)
  {
  }
}
