/** Finding indexes that are prefixes of others (duplicated.go). */
module DuplicateIndexes {
  import opened Ordering

  /** What an index says of a field: a number whose sign is the direction, or a kind such as `hashed` or `text`. */
  datatype Value = Int32(i: int) | Int64(i: int) | Float64(f: real) | Kind(name: string)

  datatype Elem = Elem(key: string, value: Value)

  datatype CollectionIndex = CollectionIndex(name: string, key: seq<Elem>)

  datatype Duplicate = Duplicate(name: string, key: seq<Elem>, containerName: string, containerKey: seq<Elem>)

  function Sign(elem: Elem): char {
    match elem.value
    case Int32(i) => if i < 0 then '-' else '+'
    case Float64(f) => if f < 0.0 then '-' else '+'
    case _ => '+'
  }

  /** How an index orders a field. */
  datatype Order = Ascending | Descending | Special(kind: string)

  function OrderOf(value: Value): Order {
    match value
    case Int32(i) => if i < 0 then Descending else Ascending
    case Int64(i) => if i < 0 then Descending else Ascending
    case Float64(f) => if f < 0.0 then Descending else Ascending
    case Kind(name) => Special(name)
  }

  /** The fields of the first index are the first fields of the second, in the same order. */
  ghost predicate IsPrefix(a: seq<Elem>, b: seq<Elem>) {
    |a| <= |b| && forall i :: 0 <= i < |a| ==> a[i].key == b[i].key && OrderOf(a[i].value) == OrderOf(b[i].value)
  }

  function ComparableKey(key: seq<Elem>): string {
    if key == [] then "" else [Sign(key[0])] + key[0].key + ComparableKey(key[1..])
  }

  method BuildComparableKey(key: seq<Elem>) returns (str: string)
    ensures str == ComparableKey(key)
  {
    str := "";
    for i := 0 to |key|
      invariant str + ComparableKey(key[i..]) == ComparableKey(key)
    {
      str := str + [Sign(key[i])] + key[i].key;
    }
  }

  /** The signed fields of an index: all that its comparable key is meant to tell. */
  function SignedFields(key: seq<Elem>): (fields: seq<(char, string)>)
    ensures |fields| == |key|
  {
    seq(|key|, i requires 0 <= i < |key| => (Sign(key[i]), key[i].key))
  }

  // ---------- sort and scan ----------

  ghost predicate IsSorted(indexes: seq<CollectionIndex>) {
    forall i, j :: 0 <= i < j < |indexes| ==>
      !StringLess(ComparableKey(indexes[j].key), ComparableKey(indexes[i].key))
  }

  /** Some sort by comparable key. */
  method Sort(results: seq<CollectionIndex>) returns (sorted: seq<CollectionIndex>)
    ensures IsSorted(sorted) && multiset(sorted) == multiset(results)
  {
    sorted := [];
    for n := 0 to |results|
      invariant IsSorted(sorted) && multiset(sorted) == multiset(results[..n])
    {
      assert results[..n+1] == results[..n] + [results[n]];
      sorted := InsertSorted(sorted, results[n]);
    }
    assert results[..|results|] == results;
  }

  method InsertSorted(sorted: seq<CollectionIndex>, index: CollectionIndex) returns (r: seq<CollectionIndex>)
    requires IsSorted(sorted)
    ensures IsSorted(r) && multiset(r) == multiset(sorted) + multiset{index}
  {
    hide ComparableKey, StringLess;
    var key := BuildComparableKey(index.key);
    var k := |sorted|;
    while k > 0
      invariant 0 <= k <= |sorted|
      invariant forall j :: k <= j < |sorted| ==> StringLess(key, ComparableKey(sorted[j].key))
    {
      var other := BuildComparableKey(sorted[k-1].key);
      if !StringLess(key, other) {
        break;
      }
      k := k - 1;
    }
    InsertKeepsOrder(sorted, index, k);
    assert sorted == sorted[..k] + sorted[k..];
    r := sorted[..k] + [index] + sorted[k..];
  }

  lemma InsertKeepsOrder(sorted: seq<CollectionIndex>, index: CollectionIndex, k: nat)
    requires IsSorted(sorted) && k <= |sorted|
    requires forall j :: k <= j < |sorted| ==> StringLess(ComparableKey(index.key), ComparableKey(sorted[j].key))
    requires k > 0 ==> !StringLess(ComparableKey(index.key), ComparableKey(sorted[k-1].key))
    ensures IsSorted(sorted[..k] + [index] + sorted[k..])
  {
    var r := sorted[..k] + [index] + sorted[k..];
    forall i, j | 0 <= i < j < |r|
      ensures !StringLess(ComparableKey(r[j].key), ComparableKey(r[i].key))
    {
      if j == k {
        if i < k - 1 {
          LessTransitive(ComparableKey(r[i].key), ComparableKey(sorted[k-1].key), ComparableKey(index.key));
        }
      } else if i == k {
        LessTotal(ComparableKey(index.key), ComparableKey(r[j].key));
      }
    }
  }

  predicate Contains(sorted: seq<CollectionIndex>, i: nat, j: nat)
    requires i < |sorted| && j < |sorted|
  {
    ComparableKey(sorted[i].key) <= ComparableKey(sorted[j].key)
  }

  /** The pairs of positions reported with `i` first, up to position `n`. */
  function PairsOf(sorted: seq<CollectionIndex>, i: nat, n: nat): (pairs: seq<(nat, nat)>)
    requires i < |sorted| && n <= |sorted|
  {
    if n <= i + 1 then []
    else if Contains(sorted, i, n - 1) then PairsOf(sorted, i, n - 1) + [(i, n - 1)]
    else PairsOf(sorted, i, n - 1)
  }

  /** The pairs reported for the first `m` positions. */
  function Pairs(sorted: seq<CollectionIndex>, m: nat): (pairs: seq<(nat, nat)>)
    requires m <= |sorted|
  {
    if m == 0 then [] else Pairs(sorted, m - 1) + PairsOf(sorted, m - 1, |sorted|)
  }

  function Report(index: CollectionIndex, container: CollectionIndex): Duplicate {
    Duplicate(index.name, index.key, container.name, container.key)
  }

  ghost predicate Reports(di: seq<Duplicate>, sorted: seq<CollectionIndex>, pairs: seq<(nat, nat)>) {
    && |di| == |pairs|
    && forall k :: 0 <= k < |pairs| ==>
      && pairs[k].0 < |sorted| && pairs[k].1 < |sorted|
      && di[k] == Report(sorted[pairs[k].0], sorted[pairs[k].1])
  }

  /** In some sorted order, every pair of positions is reported once if the first key is a prefix of the second. */
  ghost predicate IsReport(results: seq<CollectionIndex>, di: seq<Duplicate>) {
    exists sorted ::
      IsSorted(sorted) && multiset(sorted) == multiset(results) && Reports(di, sorted, Pairs(sorted, |sorted|))
  }

  /**
    Between the two indexes something is reported exactly when the key of one is a prefix of the other's;
    if the keys differ, the shorter is reported as the duplicate and never the longer.
   */
  ghost predicate Settles(di: seq<Duplicate>, a: CollectionIndex, b: CollectionIndex) {
    var k, l := ComparableKey(a.key), ComparableKey(b.key);
    && (k != l ==> (Duplicate(a.name, a.key, b.name, b.key) in di <==> k <= l))
    && (k == l ==> Duplicate(a.name, a.key, b.name, b.key) in di || Duplicate(b.name, b.key, a.name, a.key) in di)
  }

  method FindDuplicated(results: seq<CollectionIndex>) returns (di: seq<Duplicate>)
    ensures IsReport(results, di)
    ensures forall a, b :: a in results && b in results && a != b ==> Settles(di, a, b)
    ensures Distinct(results) ==>
      forall a, b :: a in results && b in results && a != b && ComparableKey(a.key) == ComparableKey(b.key) ==>
        (Report(a, b) in di) != (Report(b, a) in di)
  {
    hide Pairs, PairsOf, IsSorted, Settles;
    var indexes := Sort(results);
    ghost var sorted := indexes;
    di := [];
    FirstPairs(sorted);
    var i := 0;
    while i < |indexes| - 1
      invariant 0 <= i <= |indexes| && (i < |indexes| || indexes == [])
      invariant Reports(di, sorted, Pairs(sorted, i))
    {
      di := ScanFrom(indexes, i, di);
      i := i + 1;
    }
    LastPairs(sorted);
    forall a, b | a in results && b in results && a != b
      ensures Settles(di, a, b)
      ensures Distinct(results) && ComparableKey(a.key) == ComparableKey(b.key) ==>
        (Report(a, b) in di) != (Report(b, a) in di)
    {
      ReportedExactly(results, di, a, b);
      if Distinct(results) && ComparableKey(a.key) == ComparableKey(b.key) {
        ReportedOnce(results, di, a, b);
      }
    }
  }

  /** The inner loop: the indexes after `i` that contain it. */
  method ScanFrom(indexes: seq<CollectionIndex>, i: nat, before: seq<Duplicate>) returns (di: seq<Duplicate>)
    requires i < |indexes| && Reports(before, indexes, Pairs(indexes, i))
    ensures Reports(di, indexes, Pairs(indexes, i + 1))
  {
    hide Pairs, PairsOf;
    di := before;
    NoPairs(indexes, i);
    for j := i + 1 to |indexes|
      invariant Reports(di, indexes, Pairs(indexes, i) + PairsOf(indexes, i, j))
    {
      PairsStep(indexes, i, j);
      var container := BuildComparableKey(indexes[j].key);
      var key := BuildComparableKey(indexes[i].key);
      if key <= container {
        di := di + [Report(indexes[i], indexes[j])];
      }
    }
  }

  lemma FirstPairs(sorted: seq<CollectionIndex>)
    ensures Pairs(sorted, 0) == []
  {
  }

  lemma NoPairs(sorted: seq<CollectionIndex>, i: nat)
    requires i < |sorted|
    ensures Pairs(sorted, i) + PairsOf(sorted, i, i + 1) == Pairs(sorted, i)
    ensures Pairs(sorted, i + 1) == Pairs(sorted, i) + PairsOf(sorted, i, |sorted|)
  {
  }

  lemma PairsStep(sorted: seq<CollectionIndex>, i: nat, j: nat)
    requires i < j < |sorted|
    ensures Pairs(sorted, i) + PairsOf(sorted, i, j + 1) ==
      Pairs(sorted, i) + PairsOf(sorted, i, j) + if Contains(sorted, i, j) then [(i, j)] else []
  {
  }

  /** The scan need not start from the last index. */
  lemma LastPairs(sorted: seq<CollectionIndex>)
    ensures sorted != [] ==> Pairs(sorted, |sorted|) == Pairs(sorted, |sorted| - 1)
  {
    if sorted != [] {
      assert PairsOf(sorted, |sorted| - 1, |sorted|) == [];
    }
  }

  lemma {:induction false} PairsOfExact(sorted: seq<CollectionIndex>, i: nat, n: nat)
    requires i < |sorted| && n <= |sorted|
    ensures forall a: nat, b: nat :: (a, b) in PairsOf(sorted, i, n) <==> a == i && i < b < n && Contains(sorted, i, b)
    ensures forall k, l :: 0 <= k < l < |PairsOf(sorted, i, n)| ==> PairsOf(sorted, i, n)[k] != PairsOf(sorted, i, n)[l]
  {
    if n > i + 1 {
      PairsOfExact(sorted, i, n - 1);
    }
  }

  /** The pairs are those of an earlier position whose key is a prefix of a later one's, each once. */
  lemma {:induction false} PairsExact(sorted: seq<CollectionIndex>, m: nat)
    requires m <= |sorted|
    ensures forall a: nat, b: nat :: (a, b) in Pairs(sorted, m) <==>
      (a < m && a < b < |sorted| && Contains(sorted, a, b))
    ensures forall k, l :: 0 <= k < l < |Pairs(sorted, m)| ==> Pairs(sorted, m)[k] != Pairs(sorted, m)[l]
  {
    if m > 0 {
      PairsExact(sorted, m - 1);
      PairsOfExact(sorted, m - 1, |sorted|);
      var before, more := Pairs(sorted, m - 1), PairsOf(sorted, m - 1, |sorted|);
      var all := before + more;
      forall k, l | 0 <= k < l < |all|
        ensures all[k] != all[l]
      {
        if k < |before| <= l {
          assert before[k] in before && more[l - |before|] in more;
          assert (before[k].0, before[k].1) in before;
          assert (more[l - |before|].0, more[l - |before|].1) in more;
        }
      }
    }
  }

  /**
    Whatever way the sort leaves equal keys, no pair is lost: of two indexes one of whose keys is a
    prefix of the other's, exactly one order is reported, and the shorter key comes first.
   */
  lemma LosesNothing(sorted: seq<CollectionIndex>, i: nat, j: nat)
    requires IsSorted(sorted) && i < |sorted| && j < |sorted| && i != j && Contains(sorted, i, j)
    ensures ((i, j) in Pairs(sorted, |sorted|)) != ((j, i) in Pairs(sorted, |sorted|))
    ensures ComparableKey(sorted[i].key) != ComparableKey(sorted[j].key) ==> (i, j) in Pairs(sorted, |sorted|)
  {
    PairsExact(sorted, |sorted|);
    var a, b := ComparableKey(sorted[i].key), ComparableKey(sorted[j].key);
    if a != b {
      PrefixIsLess(a, b);
    }
  }

  /** Every two indexes of the collection are settled by a report, however the sort ordered equal keys. */
  lemma ReportedExactly(results: seq<CollectionIndex>, di: seq<Duplicate>, a: CollectionIndex, b: CollectionIndex)
    requires IsReport(results, di) && a in results && b in results && a != b
    ensures Settles(di, a, b)
  {
    hide Pairs, ComparableKey, IsSorted;
    var sorted :|
      IsSorted(sorted) && multiset(sorted) == multiset(results) && Reports(di, sorted, Pairs(sorted, |sorted|));
    assert a in multiset(sorted) && b in multiset(sorted);
    var i :| 0 <= i < |sorted| && sorted[i] == a;
    var j :| 0 <= j < |sorted| && sorted[j] == b;
    if ComparableKey(a.key) <= ComparableKey(b.key) {
      LosesNothing(sorted, i, j);
      ReportedPair(sorted, di, i, j);
      ReportedPair(sorted, di, j, i);
    } else if Report(a, b) in di {
      OnlyPrefixesReported(sorted, di, a, b);
    }
  }

  /** Of two different indexes with equal keys exactly one is reported, if no index is listed twice. */
  lemma ReportedOnce(results: seq<CollectionIndex>, di: seq<Duplicate>, a: CollectionIndex, b: CollectionIndex)
    requires IsReport(results, di) && Distinct(results) && a in results && b in results && a != b
    requires ComparableKey(a.key) == ComparableKey(b.key)
    ensures (Report(a, b) in di) != (Report(b, a) in di)
  {
    hide Pairs, ComparableKey, IsSorted, Distinct;
    var sorted :|
      IsSorted(sorted) && multiset(sorted) == multiset(results) && Reports(di, sorted, Pairs(sorted, |sorted|));
    assert a in multiset(sorted) && b in multiset(sorted);
    var i :| 0 <= i < |sorted| && sorted[i] == a;
    var j :| 0 <= j < |sorted| && sorted[j] == b;
    StillDistinct(results, sorted);
    LosesNothing(sorted, i, j);
    ReportedPair(sorted, di, i, j);
    ReportedPair(sorted, di, j, i);
    ReportedOnlyThere(sorted, di, i, j);
    ReportedOnlyThere(sorted, di, j, i);
  }

  lemma ReportedOnlyThere(sorted: seq<CollectionIndex>, di: seq<Duplicate>, i: nat, j: nat)
    requires Reports(di, sorted, Pairs(sorted, |sorted|)) && Distinct(sorted) && i < |sorted| && j < |sorted|
    ensures Report(sorted[i], sorted[j]) in di ==> (i, j) in Pairs(sorted, |sorted|)
  {
    hide Pairs;
    if Report(sorted[i], sorted[j]) in di {
      var pairs := Pairs(sorted, |sorted|);
      var k :| 0 <= k < |di| && di[k] == Report(sorted[i], sorted[j]);
      var m, n := pairs[k].0, pairs[k].1;
      SameReport(sorted[m], sorted[n], sorted[i], sorted[j]);
      assert m == i && n == j;
      assert pairs[k] == (i, j);
    }
  }

  lemma SameReport(a: CollectionIndex, b: CollectionIndex, c: CollectionIndex, d: CollectionIndex)
    requires Report(a, b) == Report(c, d)
    ensures a == c && b == d
  {
  }

  lemma ReportedPair(sorted: seq<CollectionIndex>, di: seq<Duplicate>, i: nat, j: nat)
    requires Reports(di, sorted, Pairs(sorted, |sorted|)) && i < |sorted| && j < |sorted|
    ensures (i, j) in Pairs(sorted, |sorted|) ==> Report(sorted[i], sorted[j]) in di
  {
    var pairs := Pairs(sorted, |sorted|);
    if (i, j) in pairs {
      var k :| 0 <= k < |pairs| && pairs[k] == (i, j);
      assert di[k] == Report(sorted[i], sorted[j]);
    }
  }

  lemma OnlyPrefixesReported(sorted: seq<CollectionIndex>, di: seq<Duplicate>, a: CollectionIndex, b: CollectionIndex)
    requires Reports(di, sorted, Pairs(sorted, |sorted|)) && Report(a, b) in di
    ensures ComparableKey(a.key) <= ComparableKey(b.key)
  {
    hide Pairs;
    var pairs := Pairs(sorted, |sorted|);
    PairsExact(sorted, |sorted|);
    var k :| 0 <= k < |di| && di[k] == Report(a, b);
    var i, j := pairs[k].0, pairs[k].1;
    assert (i, j) in pairs;
    assert Contains(sorted, i, j);
  }

  // ---------- what a prefix of keys says about the fields ----------

  /** The fields of the first index are the first fields of the second. */
  lemma {:induction false} FieldsPrefixIsKeyPrefix(a: seq<Elem>, b: seq<Elem>)
    requires SignedFields(a) <= SignedFields(b)
    ensures ComparableKey(a) <= ComparableKey(b)
  {
    if a != [] {
      assert SignedFields(a)[0] == SignedFields(b)[0];
      FieldsOfRest(a);
      FieldsOfRest(b);
      FieldsPrefixIsKeyPrefix(a[1..], b[1..]);
      var head := [Sign(a[0])] + a[0].key;
      assert head + ComparableKey(a[1..]) <= head + ComparableKey(b[1..]);
    }
  }

  lemma FieldsOfRest(a: seq<Elem>)
    requires a != []
    ensures SignedFields(a[1..]) == SignedFields(a)[1..]
  {
  }

  /** The names of the fields of the first index are as long as those of the first fields of the second. */
  predicate NamesAlign(a: seq<Elem>, b: seq<Elem>) {
    |a| <= |b| && forall i :: 0 <= i < |a| ==> |a[i].key| == |b[i].key|
  }

  /** The signed fields agree exactly when the names align. */
  lemma {:induction false} SignedFieldsAgree(a: seq<Elem>, b: seq<Elem>)
    requires ComparableKey(a) <= ComparableKey(b)
    ensures SignedFields(a) <= SignedFields(b) <==> NamesAlign(a, b)
  {
    if SignedFields(a) <= SignedFields(b) {
      forall i | 0 <= i < |a|
        ensures |a[i].key| == |b[i].key|
      {
        assert SignedFields(a)[i] == SignedFields(b)[i];
      }
    }
    if NamesAlign(a, b) && a != [] {
      hide ComparableKey;
      KeyOfRest(a);
      KeyOfRest(b);
      SameHead(Sign(a[0]), Sign(b[0]), a[0].key + ComparableKey(a[1..]), b[0].key + ComparableKey(b[1..]));
      SameLength(a[0].key, b[0].key, ComparableKey(a[1..]), ComparableKey(b[1..]));
      SignedFieldsAgree(a[1..], b[1..]);
      FieldsOfRest(a);
      FieldsOfRest(b);
      assert SignedFields(a) == [SignedFields(a)[0]] + SignedFields(a)[1..];
      assert SignedFields(b) == [SignedFields(b)[0]] + SignedFields(b)[1..];
    }
  }

  /** Fields at one place are ordered alike. */
  ghost predicate OrdersMatch(a: seq<Elem>, b: seq<Elem>) {
    forall i :: 0 <= i < |a| && i < |b| ==> OrderOf(a[i].value) == OrderOf(b[i].value)
  }

  /**
    Whatever the names and kinds, the first index is a prefix of the one it is reported for exactly when the
    names align and fields at one place are ordered alike.
   */
  lemma ReportIsRight(a: seq<Elem>, b: seq<Elem>)
    requires ComparableKey(a) <= ComparableKey(b)
    ensures IsPrefix(a, b) <==> NamesAlign(a, b) && OrdersMatch(a, b)
  {
    hide ComparableKey;
    SignedFieldsAgree(a, b);
    if NamesAlign(a, b) {
      forall i | 0 <= i < |a|
        ensures a[i].key == b[i].key
      {
        assert SignedFields(a)[i] == SignedFields(b)[i];
      }
    }
  }

  /** No direction is lost: a descending field is a 64-bit integer in both indexes or in neither. */
  ghost predicate SignsMatch(a: seq<Elem>, b: seq<Elem>) {
    forall i :: 0 <= i < |a| && i < |b| && OrderOf(a[i].value) == Descending ==>
      (a[i].value.Int64? <==> b[i].value.Int64?)
  }

  /** A prefix is found exactly when no direction is lost on one side only. */
  lemma {:induction false} PrefixIsFound(a: seq<Elem>, b: seq<Elem>)
    requires IsPrefix(a, b)
    ensures ComparableKey(a) <= ComparableKey(b) <==> SignsMatch(a, b)
  {
    if a != [] {
      hide ComparableKey;
      KeyOfRest(a);
      KeyOfRest(b);
      var s, t := ComparableKey(a[1..]), ComparableKey(b[1..]);
      PrefixIsFound(a[1..], b[1..]);
      SameHead(Sign(a[0]), Sign(b[0]), a[0].key + s, b[0].key + t);
      if a[0].key + s <= b[0].key + t {
        SameLength(a[0].key, b[0].key, s, t);
      }
      SignsMatchStep(a, b);
    } else {
      NoKey(a);
    }
  }

  lemma NoKey(a: seq<Elem>)
    requires a == []
    ensures ComparableKey(a) == ""
  {
  }

  lemma SignsMatchStep(a: seq<Elem>, b: seq<Elem>)
    requires IsPrefix(a, b) && a != []
    ensures SignsMatch(a, b) <==> Sign(a[0]) == Sign(b[0]) && SignsMatch(a[1..], b[1..])
  {
    if Sign(a[0]) == Sign(b[0]) && SignsMatch(a[1..], b[1..]) {
      forall i | 0 <= i < |a| && OrderOf(a[i].value) == Descending
        ensures a[i].value.Int64? <==> b[i].value.Int64?
      {
        assert i > 0 ==> a[1..][i-1] == a[i] && b[1..][i-1] == b[i];
      }
    }
  }

  /** On ordinary numbers the sign tells the direction, so reports are right but for names, and complete. */
  lemma OrdinaryNumbers(a: seq<Elem>, b: seq<Elem>)
    requires forall e :: e in a || e in b ==> e.value.Int32? || e.value.Float64?
    ensures ComparableKey(a) <= ComparableKey(b) ==> (IsPrefix(a, b) <==> NamesAlign(a, b))
    ensures IsPrefix(a, b) ==> ComparableKey(a) <= ComparableKey(b)
  {
    hide ComparableKey;
    if IsPrefix(a, b) {
      PrefixIsFound(a, b);
    }
    if ComparableKey(a) <= ComparableKey(b) && NamesAlign(a, b) {
      SignedFieldsAgree(a, b);
      forall i | 0 <= i < |a|
        ensures a[i].key == b[i].key && OrderOf(a[i].value) == OrderOf(b[i].value)
      {
        assert SignedFields(a)[i] == SignedFields(b)[i];
        assert a[i] in a && b[i] in b;
      }
    }
  }

  /** A hashed index and an ascending one on one field have one key, and one of them is reported. */
  method HashedReported() returns (x: CollectionIndex, y: CollectionIndex, di: seq<Duplicate>)
    ensures x.key == [Elem("_id", Int32(1))] && y.key == [Elem("_id", Kind("hashed"))]
    ensures Report(x, y) in di || Report(y, x) in di
    ensures !IsPrefix(x.key, y.key) && !IsPrefix(y.key, x.key)
  {
    hide IsReport, ComparableKey;
    x := CollectionIndex("_id_", [Elem("_id", Int32(1))]);
    y := CollectionIndex("_id_hashed", [Elem("_id", Kind("hashed"))]);
    assert OrderOf(x.key[0].value) != OrderOf(y.key[0].value);
    di := FindDuplicated([x, y]);
    KeyOfOne("_id", Int32(1));
    KeyOfOne("_id", Kind("hashed"));
    ReportedExactly([x, y], di, x, y);
  }

  /** Two equal indexes, descending by numbers of different width, are not reported. */
  method EqualNotReported() returns (x: CollectionIndex, y: CollectionIndex, di: seq<Duplicate>)
    ensures x.key == [Elem("a", Int32(-1))] && y.key == [Elem("a", Int64(-1))]
    ensures IsPrefix(x.key, y.key) && IsPrefix(y.key, x.key)
    ensures Report(x, y) !in di && Report(y, x) !in di
  {
    hide IsReport, ComparableKey;
    x, y := CollectionIndex("x", [Elem("a", Int32(-1))]), CollectionIndex("y", [Elem("a", Int64(-1))]);
    di := FindDuplicated([x, y]);
    KeyOfOne("a", Int32(-1));
    KeyOfOne("a", Int64(-1));
    assert ("-" + "a")[0] != ("+" + "a")[0];
    ReportedExactly([x, y], di, x, y);
    ReportedExactly([x, y], di, y, x);
  }

  lemma KeyOfRest(key: seq<Elem>)
    requires key != []
    ensures ComparableKey(key) == [Sign(key[0])] + (key[0].key + ComparableKey(key[1..]))
  {
  }

  lemma SameLength(m: string, n: string, s: string, t: string)
    requires |m| == |n| && m + s <= n + t
    ensures m == n && s <= t
  {
    assert (m + s)[..|m|] == m && (n + t)[..|n|] == n;
    assert (m + s)[|m|..] == s && (n + t)[|n|..] == t;
  }

  /** An index on a field whose name begins with that of another: the shorter is reported, and is no prefix. */
  method NameCutShort() returns (x: CollectionIndex, y: CollectionIndex, di: seq<Duplicate>)
    ensures x.key == [Elem("a", Int32(1))] && y.key == [Elem("ab", Int32(1))]
    ensures Report(x, y) in di && !(SignedFields(x.key) <= SignedFields(y.key)) && !IsPrefix(x.key, y.key)
  {
    hide IsReport, ComparableKey, SignedFields;
    x, y := CollectionIndex("x", [Elem("a", Int32(1))]), CollectionIndex("y", [Elem("ab", Int32(1))]);
    di := FindDuplicated([x, y]);
    CutKey(x.key, y.key);
    ReportedExactly([x, y], di, x, y);
  }

  lemma CutKey(a: seq<Elem>, b: seq<Elem>)
    requires a == [Elem("a", Int32(1))] && b == [Elem("ab", Int32(1))]
    ensures ComparableKey(a) <= ComparableKey(b) && ComparableKey(a) != ComparableKey(b)
    ensures !(SignedFields(a) <= SignedFields(b)) && !IsPrefix(a, b)
  {
    hide ComparableKey;
    KeyOfOne("a", Int32(1));
    KeyOfOne("ab", Int32(1));
    assert |"+" + "a"| != |"+" + "ab"| && "+" + "a" <= "+" + "ab";
    assert SignedFields(a)[0] != SignedFields(b)[0] by {
      assert |"a"| != |"ab"|;
    }
  }

  lemma KeyOfOne(name: string, value: Value)
    ensures ComparableKey([Elem(name, value)]) == [Sign(Elem(name, value))] + name
  {
    assert [Elem(name, value)][1..] == [];
  }

  /** A sign in a name: two indexes without a common field have one key, and one of them is reported. */
  method SignInName() returns (x: CollectionIndex, y: CollectionIndex, di: seq<Duplicate>)
    ensures x.key == [Elem("a-b", Int32(1))] && y.key == [Elem("a", Int32(1)), Elem("b", Int32(-1))]
    ensures Report(x, y) in di || Report(y, x) in di
    ensures !(SignedFields(x.key) <= SignedFields(y.key)) && !(SignedFields(y.key) <= SignedFields(x.key))
    ensures !IsPrefix(x.key, y.key) && !IsPrefix(y.key, x.key)
  {
    hide IsReport, ComparableKey, SignedFields;
    x := CollectionIndex("x", [Elem("a-b", Int32(1))]);
    y := CollectionIndex("y", [Elem("a", Int32(1)), Elem("b", Int32(-1))]);
    di := FindDuplicated([x, y]);
    OneKey(x.key, y.key);
    ReportedExactly([x, y], di, x, y);
  }

  lemma OneKey(a: seq<Elem>, b: seq<Elem>)
    requires a == [Elem("a-b", Int32(1))] && b == [Elem("a", Int32(1)), Elem("b", Int32(-1))]
    ensures ComparableKey(a) == ComparableKey(b)
    ensures !(SignedFields(a) <= SignedFields(b)) && !(SignedFields(b) <= SignedFields(a))
    ensures !IsPrefix(a, b) && !IsPrefix(b, a)
  {
    KeyOfOne("a-b", Int32(1));
    assert b[1..] == [Elem("b", Int32(-1))] && b[1..][1..] == [];
    assert ComparableKey(b[1..]) == "-b";
    assert SignedFields(a)[0] != SignedFields(b)[0] by {
      assert |"a"| != |"a-b"|;
    }
  }

  predicate SignFree(key: seq<Elem>) {
    forall i :: 0 <= i < |key| ==> '+' !in key[i].key && '-' !in key[i].key
  }

  /** The fields agree, but the last name of the first index may be cut short. */
  predicate CutPrefix(a: seq<Elem>, b: seq<Elem>) {
    a == [] ||
    (&& |a| <= |b|
     && SignedFields(a)[..|a|-1] == SignedFields(b)[..|a|-1]
     && Sign(a[|a|-1]) == Sign(b[|a|-1]) && a[|a|-1].key <= b[|a|-1].key)
  }

  lemma CutPrefixStep(a: seq<Elem>, b: seq<Elem>)
    requires |a| > 1
    ensures CutPrefix(a, b) <==>
      b != [] && Sign(a[0]) == Sign(b[0]) && a[0].key == b[0].key && CutPrefix(a[1..], b[1..])
  {
    if |a| <= |b| {
      FieldsOfRest(a);
      FieldsOfRest(b);
      var n := |a| - 1;
      assert SignedFields(a)[..n] == [SignedFields(a)[0]] + SignedFields(a)[1..][..n-1];
      assert SignedFields(b)[..n] == [SignedFields(b)[0]] + SignedFields(b)[1..][..n-1];
      assert [SignedFields(a)[0]][0] == SignedFields(a)[0];
      if SignedFields(a)[..n] == SignedFields(b)[..n] {
        assert SignedFields(a)[..n][0] == SignedFields(b)[..n][0];
        assert SignedFields(a)[1..][..n-1] == SignedFields(a)[..n][1..];
        assert SignedFields(b)[1..][..n-1] == SignedFields(b)[..n][1..];
      }
    }
  }

  predicate StartsWithSign(s: string) {
    s == "" || s[0] == '+' || s[0] == '-'
  }

  lemma KeyStartsWithSign(key: seq<Elem>)
    ensures StartsWithSign(ComparableKey(key))
  {
  }

  /** Names without signs end where the next sign is. */
  lemma NamesSplit(m: string, n: string, s: string, t: string)
    requires '+' !in m && '-' !in m && '+' !in n && '-' !in n
    requires StartsWithSign(s) && StartsWithSign(t)
    ensures m + s <= n + t <==> (if s == "" then m <= n else m == n && s <= t)
  {
    var a, b := m + s, n + t;
    assert forall i :: 0 <= i < |m| ==> a[i] == m[i] && m[i] in m;
    assert forall i :: 0 <= i < |n| ==> b[i] == n[i] && n[i] in n;
    assert s != "" ==> a[|m|] == s[0];
    assert t != "" ==> b[|n|] == t[0];
    if a <= b && |m| == |n| {
      assert m == n;
      assert s == a[|m|..] && t == b[|n|..];
    }
  }

  /**
    With names free of signs, a key is a prefix of another exactly when the fields agree up to the
    last one, whose name may be cut short: the report is right exactly when it is not.
   */
  lemma {:induction false} KeyPrefixMeans(a: seq<Elem>, b: seq<Elem>)
    requires SignFree(a) && SignFree(b)
    ensures ComparableKey(a) <= ComparableKey(b) <==> CutPrefix(a, b)
    ensures ComparableKey(a) <= ComparableKey(b) ==>
      (SignedFields(a) <= SignedFields(b) <==> a == [] || a[|a|-1].key == b[|a|-1].key)
  {
    if a != [] {
      if b != [] {
        var s, t := ComparableKey(a[1..]), ComparableKey(b[1..]);
        KeyStartsWithSign(a[1..]);
        KeyStartsWithSign(b[1..]);
        NamesSplit(a[0].key, b[0].key, s, t);
        KeyPrefixMeans(a[1..], b[1..]);
        SameHead(Sign(a[0]), Sign(b[0]), a[0].key + s, b[0].key + t);
        assert ComparableKey(a) == [Sign(a[0])] + (a[0].key + s);
        assert ComparableKey(b) == [Sign(b[0])] + (b[0].key + t);
      }
      if |a| > 1 {
        CutPrefixStep(a, b);
      }
      if CutPrefix(a, b) {
        FieldsPrefixLast(a, b);
      }
    }
  }

  lemma SameHead(x: char, y: char, s: string, t: string)
    ensures [x] + s <= [y] + t <==> x == y && s <= t
  {
    if [x] + s <= [y] + t {
      assert ([x] + s)[0] == ([y] + t)[0];
      assert ([x] + s)[1..] == s && ([y] + t)[1..] == t;
    }
  }

  lemma FieldsPrefixLast(a: seq<Elem>, b: seq<Elem>)
    requires a != [] && CutPrefix(a, b)
    ensures SignedFields(a) <= SignedFields(b) <==> a[|a|-1].key == b[|a|-1].key
  {
    var n := |a| - 1;
    var f, g := SignedFields(a), SignedFields(b);
    assert f == f[..n] + [f[n]];
    assert g[..n+1] == g[..n] + [g[n]];
  }
}
