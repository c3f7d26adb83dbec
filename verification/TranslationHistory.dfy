/** What a compressed history remembers of the facts it was given (translate.go). */
module TranslationHistory {
  import opened Translations

  // ---------- lookups, on histories in any order ----------

  /** The first of the latest facts at or before `ts`. */
  ghost predicate IsLatestAt(units: seq<TranslationUnit>, ts: Time, i: nat) {
    && i < |units| && units[i].timestamp <= ts
    && (forall j :: 0 <= j < |units| && units[j].timestamp <= ts ==> units[j].timestamp <= units[i].timestamp)
    && (forall j :: 0 <= j < i && units[j].timestamp <= ts ==> units[j].timestamp < units[i].timestamp)
  }

  ghost predicate AnyAt(units: seq<TranslationUnit>, ts: Time) {
    exists j :: 0 <= j < |units| && units[j].timestamp <= ts
  }

  /**
    A lookup answers with the latest fact at or before the instant, provided that the first fact
    recorded is not later than the instant; otherwise it answers with that first fact.
   */
  lemma {:induction false} LookupIsLatest(units: seq<TranslationUnit>, ts: Time)
    requires units != []
    ensures var i := LookupIndex(units, ts); if units[0].timestamp <= ts then IsLatestAt(units, ts, i) else i == 0
  {
    if |units| > 1 {
      LookupIsLatest(units[..|units|-1], ts);
    }
  }

  /**
    The intended answer, the latest fact at or before the instant and else the first fact, is given
    exactly when the first fact recorded is not later than the instant or no fact is at or before it.
   */
  lemma LookupAsIntended(units: seq<TranslationUnit>, ts: Time)
    requires units != []
    ensures (if AnyAt(units, ts)
             then IsLatestAt(units, ts, LookupIndex(units, ts))
             else LookupIndex(units, ts) == 0)
      <==> (units[0].timestamp <= ts || !AnyAt(units, ts))
  {
    LookupIsLatest(units, ts);
  }

  /** A history that was not recorded in order may answer with a fact from the future. */
  lemma LookupOutOfOrder()
    ensures var units := [TranslationUnit("late", 10), TranslationUnit("early", 5)];
      Lookup(units, 7) == units[0] && IsLatestAt(units, 7, 1)
  {
    var units := [TranslationUnit("late", 10), TranslationUnit("early", 5)];
    assert units[..1] == [units[0]];
  }

  // ---------- what is kept of the facts ----------

  /** The history kept after the facts have arrived one by one. */
  function Compressed(facts: seq<TranslationUnit>): seq<TranslationUnit> {
    if facts == [] then [] else Upsert(Compressed(facts[..|facts|-1]), facts[|facts|-1])
  }

  /** A table after a run of upserts, on any keys. */
  function Recorded(calls: seq<(string, TranslationUnit)>): map<string, seq<TranslationUnit>> {
    if calls == [] then map[]
    else
      var table, (key, tu) := Recorded(calls[..|calls|-1]), calls[|calls|-1];
      table[key := Upsert(History(table, key), tu)]
  }

  function FactsFor(calls: seq<(string, TranslationUnit)>, key: string): seq<TranslationUnit> {
    if calls == [] then []
    else
      var facts, call := FactsFor(calls[..|calls|-1], key), calls[|calls|-1];
      if call.0 == key then facts + [call.1] else facts
  }

  /** Whatever the run, the history of a key is the compression of that key's own facts. */
  lemma {:induction false} HistoryOfRun(calls: seq<(string, TranslationUnit)>, key: string)
    ensures History(Recorded(calls), key) == Compressed(FactsFor(calls, key))
  {
    if calls != [] {
      var before, call := calls[..|calls|-1], calls[|calls|-1];
      HistoryOfRun(before, key);
      if call.0 == key {
        var facts := FactsFor(before, key);
        assert (facts + [call.1])[..|facts|] == facts;
      }
    }
  }

  ghost predicate SameAnswers(facts: seq<TranslationUnit>) {
    forall ts :: Lookup(Compressed(facts), ts).value == Lookup(facts, ts).value
  }

  // ---------- compression, on facts in any order ----------

  /** The number of changes of value up to fact `j`: the unit of the compressed history that stands for it. */
  function UnitOf(facts: seq<TranslationUnit>, j: nat): nat
    requires j < |facts|
  {
    if j == 0 then 0 else UnitOf(facts, j - 1) + if facts[j-1].value == facts[j].value then 0 else 1
  }

  /**
    The units are the runs of facts that repeat one value, in order: each has the value of its run and the
    least of its instants.
   */
  ghost predicate UnitsAreRuns(facts: seq<TranslationUnit>, units: seq<TranslationUnit>) {
    && (if facts == [] then units == [] else |units| == UnitOf(facts, |facts| - 1) + 1)
    && (forall j :: 0 <= j < |facts| ==> StandsFor(facts, units, j))
    && (forall u :: 0 <= u < |units| ==> StartsWithFact(facts, units, u))
  }

  ghost predicate StandsFor(facts: seq<TranslationUnit>, units: seq<TranslationUnit>, j: nat)
    requires j < |facts|
  {
    var u := UnitOf(facts, j);
    u < |units| && units[u].value == facts[j].value && units[u].timestamp <= facts[j].timestamp
  }

  ghost predicate IsFirstOfUnit(facts: seq<TranslationUnit>, units: seq<TranslationUnit>, u: nat, j: nat)
    requires u < |units|
  {
    j < |facts| && UnitOf(facts, j) == u && units[u] == facts[j]
  }

  ghost predicate StartsWithFact(facts: seq<TranslationUnit>, units: seq<TranslationUnit>, u: nat)
    requires u < |units|
  {
    exists j :: IsFirstOfUnit(facts, units, u, j)
  }

  lemma {:induction false} UnitOfPrefix(facts: seq<TranslationUnit>, n: nat, j: nat)
    requires j < n <= |facts|
    ensures UnitOf(facts[..n], j) == UnitOf(facts, j)
  {
    if j > 0 {
      UnitOfPrefix(facts, n, j - 1);
    }
  }

  lemma {:induction false} UnitsGrow(facts: seq<TranslationUnit>, i: nat, j: nat)
    requires i <= j < |facts|
    ensures UnitOf(facts, i) <= UnitOf(facts, j)
    ensures UnitOf(facts, i) == UnitOf(facts, j) ==> forall k :: i <= k <= j ==> facts[k].value == facts[i].value
    decreases j
  {
    if i < j {
      UnitsGrow(facts, i, j - 1);
    }
  }

  /** Whatever the order of the facts, their history has one unit for each run of one value. */
  lemma {:induction false} CompressedIsRuns(facts: seq<TranslationUnit>)
    ensures UnitsAreRuns(facts, Compressed(facts))
  {
    if facts != [] {
      CompressedIsRuns(facts[..|facts|-1]);
      UpsertKeepsRuns(facts, Compressed(facts[..|facts|-1]));
    }
  }

  lemma UpsertKeepsRuns(facts: seq<TranslationUnit>, older: seq<TranslationUnit>)
    requires facts != [] && UnitsAreRuns(facts[..|facts|-1], older)
    ensures UnitsAreRuns(facts, Upsert(older, facts[|facts|-1]))
  {
    hide UnitOf, StandsFor, StartsWithFact;
    var n := |facts|;
    var units := Upsert(older, facts[n-1]);
    LastUnit(facts, older);
    forall j | 0 <= j < n
      ensures StandsFor(facts, units, j)
    {
      if j < n - 1 {
        StillStands(facts, older, j);
      }
    }
    forall u | 0 <= u < |units|
      ensures StartsWithFact(facts, units, u)
    {
      StillStarts(facts, older, u);
    }
  }

  lemma LastUnit(facts: seq<TranslationUnit>, older: seq<TranslationUnit>)
    requires facts != [] && UnitsAreRuns(facts[..|facts|-1], older)
    ensures var units := Upsert(older, facts[|facts|-1]);
      |units| == UnitOf(facts, |facts| - 1) + 1 && StandsFor(facts, units, |facts| - 1)
  {
    hide UnitOf;
    var n := |facts|;
    UnitStep(facts, n - 1);
    if n > 1 {
      UnitOfPrefix(facts, n - 1, n - 2);
      assert StandsFor(facts[..n-1], older, n - 2);
    }
  }

  lemma StillStands(facts: seq<TranslationUnit>, older: seq<TranslationUnit>, j: nat)
    requires j < |facts| - 1 && StandsFor(facts[..|facts|-1], older, j)
    ensures StandsFor(facts, Upsert(older, facts[|facts|-1]), j)
  {
    UnitOfPrefix(facts, |facts| - 1, j);
  }

  lemma StillStarts(facts: seq<TranslationUnit>, older: seq<TranslationUnit>, u: nat)
    requires facts != [] && UnitsAreRuns(facts[..|facts|-1], older) && u < |Upsert(older, facts[|facts|-1])|
    ensures StartsWithFact(facts, Upsert(older, facts[|facts|-1]), u)
  {
    hide UnitOf, StandsFor;
    var n := |facts|;
    var units := Upsert(older, facts[n-1]);
    if u < |older| && units[u] == older[u] {
      assert StartsWithFact(facts[..n-1], older, u);
      var j :| IsFirstOfUnit(facts[..n-1], older, u, j);
      UnitOfPrefix(facts, n - 1, j);
      assert IsFirstOfUnit(facts, units, u, j);
    } else {
      LastUnit(facts, older);
      assert IsFirstOfUnit(facts, units, u, n - 1);
    }
  }

  lemma UnitStep(facts: seq<TranslationUnit>, j: nat)
    requires j < |facts|
    ensures UnitOf(facts, j) ==
      if j == 0 then 0 else UnitOf(facts, j - 1) + if facts[j-1].value == facts[j].value then 0 else 1
  {
  }

  /**
    Between the instants of two facts of one run, in whatever order these come, no fact says another value.
    The instants of a run are not interleaved with anything else.
   */
  ghost predicate Apart(facts: seq<TranslationUnit>) {
    forall i, j, k :: 0 <= i < |facts| && 0 <= j < |facts| && 0 <= k < |facts| && Covers(facts, i, j, k) ==>
      facts[j].value == facts[i].value
  }

  /** Fact `j` lies between two facts of one run. */
  ghost predicate Covers(facts: seq<TranslationUnit>, i: nat, j: nat, k: nat)
    requires i < |facts| && j < |facts| && k < |facts|
  {
    && i != k && UnitOf(facts, i) == UnitOf(facts, k)
    && facts[i].timestamp <= facts[j].timestamp <= facts[k].timestamp
  }

  /** If no run is interleaved with anything else, compression loses nothing, in whatever order facts arrive. */
  lemma ApartSound(facts: seq<TranslationUnit>, ts: Time)
    requires Apart(facts)
    ensures Lookup(Compressed(facts), ts).value == Lookup(facts, ts).value
  {
    if facts != [] {
      hide Compressed, LookupIndex, Apart, UnitOf, UnitsAreRuns, IsLatestAt, IsFirstOfUnit;
      var units := Compressed(facts);
      CompressedIsRuns(facts);
      FirstUnit(facts, units);
      LookupIsLatest(facts, ts);
      LookupIsLatest(units, ts);
      var u := LookupIndex(units, ts);
      var b := FactOfUnit(facts, units, u);
      if units[0].timestamp <= ts {
        if facts[0].timestamp <= ts {
          AnswersMeet(facts, units, ts, LookupIndex(facts, ts), u, b);
        } else {
          FirstAnswersMeet(facts, units, ts, u, b);
        }
      }
    }
  }

  lemma FactOfUnit(facts: seq<TranslationUnit>, units: seq<TranslationUnit>, u: nat) returns (j: nat)
    requires UnitsAreRuns(facts, units) && u < |units|
    ensures IsFirstOfUnit(facts, units, u, j)
  {
    assert StartsWithFact(facts, units, u);
    j :| IsFirstOfUnit(facts, units, u, j);
  }

  lemma FirstUnit(facts: seq<TranslationUnit>, units: seq<TranslationUnit>)
    requires facts != [] && UnitsAreRuns(facts, units)
    ensures units != [] && UnitOf(facts, 0) == 0
    ensures units[0].value == facts[0].value && units[0].timestamp <= facts[0].timestamp
  {
    assert StandsFor(facts, units, 0);
  }

  /** The fact that answers and the unit that answers say the same. */
  lemma AnswersMeet(facts: seq<TranslationUnit>, units: seq<TranslationUnit>, ts: Time, j: nat, u: nat, b: nat)
    requires Apart(facts) && UnitsAreRuns(facts, units)
    requires IsLatestAt(facts, ts, j) && IsLatestAt(units, ts, u) && IsFirstOfUnit(facts, units, u, b)
    ensures units[u].value == facts[j].value
  {
    hide UnitOf;
    var a := UnitOf(facts, j);
    assert StandsFor(facts, units, j);
    if a != u {
      var m := FactOfUnit(facts, units, a);
      UnitsInOrder(facts, b, j);
      if m != j {
        assert Covers(facts, m, b, j);
      }
    }
  }

  lemma UnitsInOrder(facts: seq<TranslationUnit>, i: nat, j: nat)
    requires i < |facts| && j < |facts|
    ensures UnitOf(facts, i) < UnitOf(facts, j) ==> i < j
  {
    if j <= i {
      UnitsGrow(facts, j, i);
    }
  }

  /** Before the first fact recorded, but not before its whole run, the unit that answers is of its value. */
  lemma FirstAnswersMeet(facts: seq<TranslationUnit>, units: seq<TranslationUnit>, ts: Time, u: nat, b: nat)
    requires facts != [] && Apart(facts) && UnitsAreRuns(facts, units)
    requires units != [] && units[0].timestamp <= ts < facts[0].timestamp
    requires IsLatestAt(units, ts, u) && IsFirstOfUnit(facts, units, u, b)
    ensures units[u].value == facts[0].value
  {
    hide UnitOf;
    FirstUnit(facts, units);
    var m := FactOfUnit(facts, units, 0);
    assert Covers(facts, m, b, 0);
  }

  /**
    All that can be asked is answered alike exactly when every recorded instant is: between two of them no
    answer changes. So agreement can be checked on finitely many queries.
   */
  lemma RecordedInstantsDecide(facts: seq<TranslationUnit>)
    ensures SameAnswers(facts) <==>
      forall i :: 0 <= i < |facts| ==>
        Lookup(Compressed(facts), facts[i].timestamp).value == Lookup(facts, facts[i].timestamp).value
  {
    hide Compressed, Lookup, UnitOf;
    if forall i :: 0 <= i < |facts| ==>
        Lookup(Compressed(facts), facts[i].timestamp).value == Lookup(facts, facts[i].timestamp).value {
      forall ts
        ensures Lookup(Compressed(facts), ts).value == Lookup(facts, ts).value
      {
        if facts == [] {
          NothingRecorded(facts, ts);
        } else {
          CompressedIsRuns(facts);
          if AnyAt(facts, ts) {
            var i := LastInstant(facts, ts);
            SettledSince(facts, facts[i].timestamp, ts);
            UnitInstants(facts, Compressed(facts));
            SettledSince(Compressed(facts), facts[i].timestamp, ts);
          } else {
            NothingYet(facts, ts);
            UnitInstants(facts, Compressed(facts));
            NothingYet(Compressed(facts), ts);
            FirstUnit(facts, Compressed(facts));
          }
        }
      }
    }
  }

  lemma NothingRecorded(facts: seq<TranslationUnit>, ts: Time)
    requires facts == []
    ensures Lookup(Compressed(facts), ts) == Lookup(facts, ts)
  {
  }

  lemma UnitInstants(facts: seq<TranslationUnit>, units: seq<TranslationUnit>)
    requires UnitsAreRuns(facts, units)
    ensures forall u :: 0 <= u < |units| ==> units[u] in facts
  {
    forall u | 0 <= u < |units|
      ensures units[u] in facts
    {
      var j := FactOfUnit(facts, units, u);
    }
  }

  lemma {:induction false} LastInstant(facts: seq<TranslationUnit>, ts: Time) returns (i: nat)
    requires AnyAt(facts, ts)
    ensures i < |facts| && facts[i].timestamp <= ts
    ensures forall j :: 0 <= j < |facts| && facts[j].timestamp <= ts ==> facts[j].timestamp <= facts[i].timestamp
  {
    var n := |facts| - 1;
    if AnyAt(facts[..n], ts) {
      i := LastInstant(facts[..n], ts);
      if facts[i].timestamp <= facts[n].timestamp <= ts {
        i := n;
      }
    } else {
      forall j | 0 <= j < n
        ensures facts[j].timestamp > ts
      {
        assert facts[..n][j] == facts[j];
      }
      i := n;
    }
  }

  /** With no instant recorded in between, the answer stays. */
  lemma {:induction false} SettledSince(units: seq<TranslationUnit>, at: Time, ts: Time)
    requires at <= ts
    requires forall u :: 0 <= u < |units| && units[u].timestamp <= ts ==> units[u].timestamp <= at
    ensures Lookup(units, ts) == Lookup(units, at)
    ensures units != [] ==> LookupIndex(units, ts) == LookupIndex(units, at)
  {
    if |units| > 1 {
      SettledSince(units[..|units|-1], at, ts);
    }
  }

  lemma {:induction false} NothingYet(units: seq<TranslationUnit>, ts: Time)
    requires units != [] && forall u :: 0 <= u < |units| ==> units[u].timestamp > ts
    ensures LookupIndex(units, ts) == 0 && Lookup(units, ts) == units[0]
  {
    if |units| > 1 {
      NothingYet(units[..|units|-1], ts);
    }
  }

  /** Fact `b` has the least instant of its run. */
  ghost predicate Opens(facts: seq<TranslationUnit>, b: nat) {
    b < |facts| && forall k :: 0 <= k < |facts| && UnitOf(facts, k) == UnitOf(facts, b) ==>
      facts[b].timestamp <= facts[k].timestamp
  }

  /** Of the runs that begin at or before `ts`, that of fact `b` begins last; of two that begin together, first. */
  ghost predicate LastOpened(facts: seq<TranslationUnit>, ts: Time, b: nat) {
    && Opens(facts, b) && facts[b].timestamp <= ts
    && forall c: nat :: Opens(facts, c) && facts[c].timestamp <= ts ==>
      && facts[c].timestamp <= facts[b].timestamp
      && (facts[c].timestamp == facts[b].timestamp ==> UnitOf(facts, b) <= UnitOf(facts, c))
  }

  /** The first fact recorded of its instant. */
  ghost predicate FirstOfInstant(facts: seq<TranslationUnit>, i: nat) {
    i < |facts| && forall k :: 0 <= k < i ==> facts[k].timestamp != facts[i].timestamp
  }

  /** The first run recorded has begun. */
  ghost predicate FirstRunBegun(facts: seq<TranslationUnit>, ts: Time) {
    exists k :: 0 <= k < |facts| && UnitOf(facts, k) == 0 && facts[k].timestamp <= ts
  }

  /**
    For facts in any order: compression keeps every answer exactly when, at the instant of each fact that
    is the first recorded of its instant, the run that began last says what that fact says, or what the
    first fact recorded says while that is still to come.
   */
  ghost predicate LastRunsAgree(facts: seq<TranslationUnit>) {
    forall i, b :: 0 <= i < |facts| && 0 <= b < |facts| && DueTogether(facts, i, b) ==>
      facts[b].value == facts[if facts[0].timestamp <= facts[i].timestamp then i else 0].value
  }

  /** Fact `i` is the first recorded of its instant, at which the run of fact `b` is the last that has begun. */
  ghost predicate DueTogether(facts: seq<TranslationUnit>, i: nat, b: nat)
    requires i < |facts| && b < |facts|
  {
    var ts := facts[i].timestamp;
    FirstOfInstant(facts, i) && LastOpened(facts, ts, b) && FirstRunBegun(facts, ts)
  }

  lemma CompressionExact(facts: seq<TranslationUnit>)
    ensures SameAnswers(facts) <==> LastRunsAgree(facts)
  {
    hide Compressed, Lookup, LookupIndex, UnitOf, LastOpened, FirstRunBegun, FirstOfInstant;
    RecordedInstantsDecide(facts);
    if LastRunsAgree(facts) {
      forall i | 0 <= i < |facts|
        ensures Lookup(Compressed(facts), facts[i].timestamp).value == Lookup(facts, facts[i].timestamp).value
      {
        var first := FirstRecorded(facts, i);
        FullAnswer(facts, first);
        if FirstRunBegun(facts, facts[i].timestamp) {
          var b := UnitAnswer(facts, facts[i].timestamp);
          assert DueTogether(facts, first, b);
        } else {
          NotBegun(facts, facts[i].timestamp);
        }
      }
    } else {
      var i, b :| 0 <= i < |facts| && 0 <= b < |facts| && DueTogether(facts, i, b)
        && facts[b].value != facts[if facts[0].timestamp <= facts[i].timestamp then i else 0].value;
      FullAnswer(facts, i);
      var c := UnitAnswer(facts, facts[i].timestamp);
      OpenedOnce(facts, facts[i].timestamp, b, c);
    }
  }

  lemma FirstRecorded(facts: seq<TranslationUnit>, i: nat) returns (first: nat)
    requires i < |facts|
    ensures FirstOfInstant(facts, first) && first < |facts| && facts[first].timestamp == facts[i].timestamp
  {
    if k :| 0 <= k < i && facts[k].timestamp == facts[i].timestamp {
      first := FirstRecorded(facts, k);
    } else {
      first := i;
    }
  }

  /** What the full list answers at the instant of a fact. */
  lemma FullAnswer(facts: seq<TranslationUnit>, i: nat)
    requires FirstOfInstant(facts, i)
    ensures Lookup(facts, facts[i].timestamp) == facts[if facts[0].timestamp <= facts[i].timestamp then i else 0]
  {
    hide LookupIndex;
    LookupIsLatest(facts, facts[i].timestamp);
  }

  lemma OpenedOnce(facts: seq<TranslationUnit>, ts: Time, b: nat, c: nat)
    requires LastOpened(facts, ts, b) && LastOpened(facts, ts, c)
    ensures b < |facts| && c < |facts| && facts[b].value == facts[c].value
  {
    UnitsGrow(facts, if b < c then b else c, if b < c then c else b);
  }

  /** What the compressed history answers once the first run has begun. */
  lemma UnitAnswer(facts: seq<TranslationUnit>, ts: Time) returns (b: nat)
    requires FirstRunBegun(facts, ts)
    ensures LastOpened(facts, ts, b) && b < |facts| && Lookup(Compressed(facts), ts).value == facts[b].value
  {
    hide Compressed, LookupIndex, UnitOf, UnitsAreRuns, StandsFor;
    var units := Compressed(facts);
    CompressedIsRuns(facts);
    FirstUnit(facts, units);
    LookupIsLatest(units, ts);
    var k :| 0 <= k < |facts| && UnitOf(facts, k) == 0 && facts[k].timestamp <= ts;
    FactStands(facts, units, k);
    var u := LookupIndex(units, ts);
    b := FactOfUnit(facts, units, u);
    forall k | 0 <= k < |facts| && UnitOf(facts, k) == u
      ensures facts[b].timestamp <= facts[k].timestamp
    {
      FactStands(facts, units, k);
    }
    forall c: nat | Opens(facts, c) && facts[c].timestamp <= ts
      ensures facts[c].timestamp <= facts[b].timestamp
      ensures facts[c].timestamp == facts[b].timestamp ==> u <= UnitOf(facts, c)
    {
      UnitOpened(facts, units, c);
    }
  }

  lemma FactStands(facts: seq<TranslationUnit>, units: seq<TranslationUnit>, k: nat)
    requires UnitsAreRuns(facts, units) && k < |facts|
    ensures UnitOf(facts, k) < |units| && units[UnitOf(facts, k)].timestamp <= facts[k].timestamp
  {
    assert StandsFor(facts, units, k);
  }

  lemma UnitOpened(facts: seq<TranslationUnit>, units: seq<TranslationUnit>, c: nat)
    requires UnitsAreRuns(facts, units) && Opens(facts, c)
    ensures UnitOf(facts, c) < |units| && units[UnitOf(facts, c)].timestamp == facts[c].timestamp
  {
    hide UnitOf;
    FactStands(facts, units, c);
    var j := FactOfUnit(facts, units, UnitOf(facts, c));
  }

  lemma NotBegun(facts: seq<TranslationUnit>, ts: Time)
    requires facts != [] && !FirstRunBegun(facts, ts)
    ensures facts[0].timestamp > ts && Lookup(Compressed(facts), ts).value == facts[0].value
  {
    hide Compressed, LookupIndex, UnitOf;
    var units := Compressed(facts);
    CompressedIsRuns(facts);
    FirstUnit(facts, units);
    var j := FactOfUnit(facts, units, 0);
    LookupIsLatest(units, ts);
  }

  /** Facts at four instants, one of which arrives late, make the compressed history disagree. */
  lemma LateRepeatUnsound()
    ensures var a, b := TranslationUnit("a", 1), TranslationUnit("b", 10);
      var facts := [a, b, TranslationUnit("b", 5), TranslationUnit("c", 7)];
      && Compressed(facts) == [TranslationUnit("a", 1), TranslationUnit("b", 5), TranslationUnit("c", 7)]
      && Lookup(facts, 12).value == "b" && Lookup(Compressed(facts), 12).value == "c"
  {
    var a, b := TranslationUnit("a", 1), TranslationUnit("b", 10);
    var late, c := TranslationUnit("b", 5), TranslationUnit("c", 7);
    var facts := [a, b, late, c];
    assert facts[..3] == [a, b, late] && [a, b, late][..2] == [a, b] && [a, b][..1] == [a] && [a][..0] == [];
    assert Compressed([a]) == [a];
    assert Compressed([a, b]) == [a, b];
    assert Compressed([a, b, late]) == [a, late];
    assert Compressed(facts) == [a, late, c];
    assert [a, late, c][..2] == [a, late] && [a, late][..1] == [a];
    assert LookupIndex([a, b], 12) == 1;
    assert LookupIndex([a, b, late], 12) == 1;
    assert LookupIndex([a, late], 12) == 1;
  }

  // ---------- compression, on facts in order of time ----------

  ghost predicate InOrder(facts: seq<TranslationUnit>) {
    forall i, j :: 0 <= i < j < |facts| ==> facts[i].timestamp <= facts[j].timestamp
  }

  /** Index of the first fact that has the instant of fact `i`. */
  function FirstOf(facts: seq<TranslationUnit>, i: nat): (k: nat)
    requires i < |facts|
    ensures k <= i && facts[k].timestamp == facts[i].timestamp
    ensures k > 0 ==> facts[k-1].timestamp != facts[i].timestamp
    ensures forall j :: k <= j <= i ==> facts[j].timestamp == facts[i].timestamp
  {
    if i > 0 && facts[i-1].timestamp == facts[i].timestamp then FirstOf(facts, i - 1) else i
  }

  /** Fact `i` opens a new instant with the value of the fact before it. */
  predicate IsRepeat(facts: seq<TranslationUnit>, i: nat)
    requires 0 < i < |facts|
  {
    facts[i-1].timestamp < facts[i].timestamp && facts[i-1].value == facts[i].value
  }

  /**
    Compression drops a repeat, which is harmless if the instant before was opened with the same value
    as well, and if no fact of the new instant has another value.
   */
  ghost predicate HarmlessRepeat(facts: seq<TranslationUnit>, i: nat)
    requires 0 < i < |facts|
  {
    IsRepeat(facts, i) ==>
      && facts[FirstOf(facts, i - 1)].value == facts[i].value
      && forall j :: i < j < |facts| && facts[j].timestamp == facts[i].timestamp ==> facts[j].value == facts[i].value
  }

  ghost predicate AllRepeatsHarmless(facts: seq<TranslationUnit>) {
    forall i :: 0 < i < |facts| ==> HarmlessRepeat(facts, i)
  }

  /** All the facts from just before the last instant on have one value. */
  ghost predicate Quiet(facts: seq<TranslationUnit>)
    requires facts != []
  {
    var k := FirstOf(facts, |facts| - 1);
    k > 0 && forall j :: k - 1 <= j < |facts| ==> facts[j].value == facts[|facts|-1].value
  }

  lemma QuietStep(facts: seq<TranslationUnit>)
    requires |facts| > 1
    ensures var n := |facts|;
      Quiet(facts) <==>
        && facts[n-1].value == facts[n-2].value
        && (facts[n-1].timestamp == facts[n-2].timestamp ==> Quiet(facts[..n-1]))
  {
    FirstOfPrefix(facts, |facts| - 1, |facts| - 2);
  }

  /** The last unit kept has the last value, and the last instant unless the last facts are all repeats. */
  lemma {:induction false} CompressedEnd(facts: seq<TranslationUnit>)
    requires facts != [] && InOrder(facts)
    ensures var c, last := Compressed(facts), facts[|facts|-1];
      && c != [] && c[|c|-1].value == last.value && c[|c|-1].timestamp <= last.timestamp
      && (c[|c|-1].timestamp < last.timestamp <==> Quiet(facts))
  {
    hide Quiet;
    var n := |facts|;
    if n == 1 {
      assert Compressed(facts[..0]) == [];
      NotQuiet(facts);
    } else {
      CompressedEnd(facts[..n-1]);
      QuietStep(facts);
    }
  }

  lemma NotQuiet(facts: seq<TranslationUnit>)
    requires |facts| == 1
    ensures !Quiet(facts)
  {
  }

  lemma {:induction false} FirstOfPrefix(facts: seq<TranslationUnit>, n: nat, i: nat)
    requires i < n <= |facts|
    ensures FirstOf(facts[..n], i) == FirstOf(facts, i)
  {
    if i > 0 {
      FirstOfPrefix(facts, n, i - 1);
    }
  }

  /** In an ordered history, an instant not before the last fact is answered by the first fact of the last instant. */
  lemma {:induction false} LookupAtEnd(units: seq<TranslationUnit>, ts: Time)
    requires units != [] && InOrder(units) && units[|units|-1].timestamp <= ts
    ensures Lookup(units, ts) == units[FirstOf(units, |units| - 1)]
  {
    var n := |units|;
    if n > 1 {
      LookupAtEnd(units[..n-1], ts);
      FirstOfPrefix(units, n - 1, n - 2);
    }
  }

  /** On ordered facts compression only ever drops a fact or appends it. */
  lemma CompressedAppends(facts: seq<TranslationUnit>)
    requires |facts| > 1 && InOrder(facts)
    ensures var n := |facts|; var c := Compressed(facts[..n-1]);
      Compressed(facts) == if facts[n-2].value == facts[n-1].value then c else c + [facts[n-1]]
  {
    CompressedEnd(facts[..|facts|-1]);
  }

  lemma {:induction false} CompressedInOrder(facts: seq<TranslationUnit>)
    requires InOrder(facts)
    ensures InOrder(Compressed(facts))
    ensures forall u :: u in Compressed(facts) ==> u in facts
  {
    if facts != [] {
      var n := |facts|;
      CompressedInOrder(facts[..n-1]);
      if n > 1 {
        hide Quiet;
        CompressedEnd(facts[..n-1]);
        CompressedAppends(facts);
      }
    }
  }

  /** What one more fact asks for, so that compression stays harmless. */
  ghost predicate HarmlessLast(facts: seq<TranslationUnit>)
    requires |facts| > 1
  {
    var n := |facts|;
    && (facts[n-1].timestamp > facts[n-2].timestamp && facts[n-1].value == facts[n-2].value ==>
         facts[FirstOf(facts, n - 2)].value == facts[n-1].value)
    && (facts[n-1].timestamp == facts[n-2].timestamp && Quiet(facts[..n-1]) ==>
         facts[n-1].value == facts[n-2].value)
  }

  /** One more fact matters to an earlier repeat only if it has the same instant and another value. */
  lemma RepeatStep(facts: seq<TranslationUnit>, i: nat)
    requires 0 < i < |facts| - 1
    ensures var x := facts[|facts|-1];
      HarmlessRepeat(facts, i) <==>
        && HarmlessRepeat(facts[..|facts|-1], i)
        && (x.timestamp == facts[i].timestamp && IsRepeat(facts, i) ==> x.value == facts[i].value)
  {
    var before := facts[..|facts|-1];
    FirstOfPrefix(facts, |facts| - 1, i - 1);
    assert forall j :: 0 <= j < |before| ==> before[j] == facts[j];
  }

  lemma HarmlessStepDown(facts: seq<TranslationUnit>)
    requires |facts| > 1 && InOrder(facts) && AllRepeatsHarmless(facts)
    ensures AllRepeatsHarmless(facts[..|facts|-1]) && HarmlessLast(facts)
  {
    var n := |facts|;
    var before := facts[..n-1];
    hide FirstOf, HarmlessRepeat, HarmlessLast;
    forall i | 0 < i < n - 1
      ensures HarmlessRepeat(before, i)
    {
      RepeatStep(facts, i);
    }
    LastIsHarmless(facts);
  }

  lemma LastIsHarmless(facts: seq<TranslationUnit>)
    requires |facts| > 1 && InOrder(facts) && AllRepeatsHarmless(facts)
    ensures HarmlessLast(facts)
  {
    var n := |facts|;
    assert HarmlessRepeat(facts, n - 1);
    FirstOfPrefix(facts, n - 1, n - 2);
    var k := FirstOf(facts, n - 2);
    if k > 0 {
      assert HarmlessRepeat(facts, k);
    }
  }

  lemma HarmlessStepUp(facts: seq<TranslationUnit>)
    requires |facts| > 1 && InOrder(facts) && AllRepeatsHarmless(facts[..|facts|-1]) && HarmlessLast(facts)
    ensures AllRepeatsHarmless(facts)
  {
    var n := |facts|;
    var before := facts[..n-1];
    FirstOfPrefix(facts, n - 1, n - 2);
    forall i | 0 < i < n
      ensures HarmlessRepeat(facts, i)
    {
      if i < n - 1 {
        assert HarmlessRepeat(before, i);
        RepeatStep(facts, i);
        if facts[n-1].timestamp == facts[i].timestamp && IsRepeat(facts, i) {
          RepeatOpensLast(facts, i);
        }
      }
    }
  }

  /** A repeat that opens the instant of the last fact makes the facts before that one quiet. */
  lemma RepeatOpensLast(facts: seq<TranslationUnit>, i: nat)
    requires 0 < i < |facts| - 1 && InOrder(facts) && HarmlessRepeat(facts[..|facts|-1], i)
    requires facts[|facts|-1].timestamp == facts[i].timestamp && IsRepeat(facts, i)
    ensures Quiet(facts[..|facts|-1]) && facts[|facts|-2].timestamp == facts[i].timestamp
    ensures facts[|facts|-2].value == facts[i].value
  {
    var before := facts[..|facts|-1];
    var k := FirstOf(before, |before| - 1);
    assert facts[i].timestamp <= facts[|facts|-2].timestamp <= facts[|facts|-1].timestamp;
    assert k == i;
    assert forall j :: i <= j < |before| ==> before[j].timestamp == facts[i].timestamp;
  }

  lemma HarmlessStep(facts: seq<TranslationUnit>)
    requires |facts| > 1 && InOrder(facts)
    ensures AllRepeatsHarmless(facts) <==> AllRepeatsHarmless(facts[..|facts|-1]) && HarmlessLast(facts)
  {
    if AllRepeatsHarmless(facts) {
      HarmlessStepDown(facts);
    } else if AllRepeatsHarmless(facts[..|facts|-1]) && HarmlessLast(facts) {
      HarmlessStepUp(facts);
    }
  }

  /** The full history after one more fact answers with it from its instant on, if that instant is new. */
  lemma FullStep(facts: seq<TranslationUnit>, ts: Time)
    requires |facts| > 1 && InOrder(facts)
    ensures var n := |facts|;
      Lookup(facts, ts) ==
      if facts[n-1].timestamp > facts[n-2].timestamp && ts >= facts[n-1].timestamp then facts[n-1]
      else Lookup(facts[..n-1], ts)
  {
    if ts >= facts[|facts|-1].timestamp {
      LookupAtEnd(facts[..|facts|-1], ts);
    }
  }

  /** The compressed history does so if the fact is kept and the last unit kept was earlier. */
  lemma CompressedStep(facts: seq<TranslationUnit>, ts: Time)
    requires |facts| > 1 && InOrder(facts)
    ensures var n := |facts|; var c := Compressed(facts[..n-1]);
      Lookup(Compressed(facts), ts) ==
      if && facts[n-1].value != facts[n-2].value && ts >= facts[n-1].timestamp
         && (facts[n-1].timestamp > facts[n-2].timestamp || Quiet(facts[..n-1]))
      then facts[n-1] else Lookup(c, ts)
  {
    hide Quiet;
    var n := |facts|;
    var c := Compressed(facts[..n-1]);
    CompressedAppends(facts);
    CompressedEnd(facts[..n-1]);
    CompressedInOrder(facts[..n-1]);
    if facts[n-1].value != facts[n-2].value {
      assert (c + [facts[n-1]])[..|c|] == c;
      if ts >= facts[n-1].timestamp {
        LookupAtEnd(c, ts);
      }
    }
  }

  /** Both histories answer alike before and after their last instant alike. */
  lemma AnswersSettle(facts: seq<TranslationUnit>, ts: Time)
    requires facts != [] && InOrder(facts) && ts >= facts[|facts|-1].timestamp
    ensures var last := facts[|facts|-1].timestamp;
      && Lookup(facts, ts) == Lookup(facts, last) == facts[FirstOf(facts, |facts| - 1)]
      && Lookup(Compressed(facts), ts) == Lookup(Compressed(facts), last)
  {
    hide Quiet;
    var last := facts[|facts|-1].timestamp;
    LookupAtEnd(facts, ts);
    LookupAtEnd(facts, last);
    CompressedEnd(facts);
    CompressedInOrder(facts);
    LookupAtEnd(Compressed(facts), ts);
    LookupAtEnd(Compressed(facts), last);
  }

  lemma AnswersStep(facts: seq<TranslationUnit>)
    requires |facts| > 1 && InOrder(facts)
    ensures SameAnswers(facts) <==> SameAnswers(facts[..|facts|-1]) && HarmlessLast(facts)
  {
    hide Lookup, Compressed, FirstOf;
    var n := |facts|;
    var before, x := facts[..n-1], facts[n-1];
    FirstOfPrefix(facts, n - 1, n - 2);
    FullStep(facts, x.timestamp);
    CompressedStep(facts, x.timestamp);
    AnswersSettle(before, x.timestamp);
    forall ts
      ensures SameAnswers(facts) ==> Lookup(Compressed(before), ts).value == Lookup(before, ts).value
      ensures SameAnswers(before) && HarmlessLast(facts) ==>
        Lookup(Compressed(facts), ts).value == Lookup(facts, ts).value
    {
      var at := if ts >= before[n-2].timestamp then before[n-2].timestamp else ts;
      if ts >= before[n-2].timestamp {
        AnswersSettle(before, ts);
      }
      FullStep(facts, at);
      CompressedStep(facts, at);
      FullStep(facts, ts);
      CompressedStep(facts, ts);
    }
  }

  /**
    When facts arrive in order of time, the compressed history gives every answer of the full list
    exactly when every repeat that opens a new instant is harmless.
   */
  lemma {:induction false} CompressionSound(facts: seq<TranslationUnit>)
    requires InOrder(facts)
    ensures SameAnswers(facts) <==> AllRepeatsHarmless(facts)
  {
    var n := |facts|;
    if n > 1 {
      CompressionSound(facts[..n-1]);
      HarmlessStep(facts);
      AnswersStep(facts);
    } else if n == 1 {
      assert Compressed(facts[..0]) == [];
      assert Compressed(facts) == facts;
    }
  }

  /** Facts at strictly increasing instants lose nothing. */
  lemma DistinctInstantsSound(facts: seq<TranslationUnit>, ts: Time)
    requires forall i, j :: 0 <= i < j < |facts| ==> facts[i].timestamp < facts[j].timestamp
    ensures Lookup(Compressed(facts), ts).value == Lookup(facts, ts).value
  {
    CompressionSound(facts);
    assert AllRepeatsHarmless(facts);
  }

  /** Two facts at one instant can make the compressed history disagree with the full list. */
  lemma TiedInstantsUnsound()
    ensures var facts := [TranslationUnit("a", 1), TranslationUnit("a", 2), TranslationUnit("b", 2)];
      Lookup(facts, 2).value == "a" && Lookup(Compressed(facts), 2).value == "b"
  {
    var facts := [TranslationUnit("a", 1), TranslationUnit("a", 2), TranslationUnit("b", 2)];
    assert facts[..2] == [facts[0], facts[1]] && facts[..2][..1] == [facts[0]] && facts[..2][..1][..0] == [];
    assert Compressed([facts[0]]) == [facts[0]];
    assert Compressed(facts[..2]) == [facts[0]];
    assert Compressed(facts) == [facts[0], facts[2]];
    assert [facts[0], facts[2]][..1] == [facts[0]];
  }
}
