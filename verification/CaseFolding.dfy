/** Making the ranges of a character set ignore case (GooglePrettify.js). */
module CaseFolding {

  /** The characters from `lo` to `hi`, both included, by code. */
  datatype Range = Range(lo: nat, hi: nat)

  predicate Has(r: Range, x: nat) {
    r.lo <= x <= r.hi
  }

  ghost predicate InAny(ranges: seq<Range>, x: nat) {
    exists i :: 0 <= i < |ranges| && Has(ranges[i], x)
  }

  ghost predicate AllProper(ranges: seq<Range>) {
    forall i :: 0 <= i < |ranges| ==> ranges[i].lo <= ranges[i].hi
  }

  predicate IsUpper(x: nat) { 65 <= x <= 90 }

  predicate IsLower(x: nat) { 97 <= x <= 122 }

  /** `x | 32` and `x & ~32`. */
  function Or32(x: nat): nat {
    if x / 32 % 2 == 1 then x else x + 32
  }

  function AndNot32(x: nat): nat {
    if x / 32 % 2 == 1 then x - 32 else x
  }

  function Max(a: nat, b: nat): nat { if a > b then a else b }

  function Min(a: nat, b: nat): nat { if a < b then a else b }

  /** A character of the set, or the other case of a letter of the set. */
  ghost predicate Folds(ranges: seq<Range>, x: nat) {
    InAny(ranges, x) || (IsLower(x) && InAny(ranges, x - 32)) || (IsUpper(x) && InAny(ranges, x + 32))
  }

  /** The other case of the upper-case letters of a range, if it has any. */
  function Lowered(r: Range): seq<Range> {
    if r.hi < 65 || r.lo > 90 then [] else [Range(Or32(Max(65, r.lo)), Or32(Min(r.hi, 90)))]
  }

  /** The other case of the lower-case letters of a range, if it has any. */
  function Raised(r: Range): seq<Range> {
    if r.hi < 97 || r.lo > 122 then [] else [Range(AndNot32(Max(97, r.lo)), AndNot32(Min(r.hi, 122)))]
  }

  function Expanded(r: Range): seq<Range> {
    [r] + Lowered(r) + Raised(r)
  }

  lemma OtherCase(x: nat)
    ensures IsUpper(x) ==> Or32(x) == x + 32
    ensures IsLower(x) ==> AndNot32(x) == x - 32
  {
  }

  lemma OtherCaseRanges(r: Range, x: nat)
    requires r.lo <= r.hi
    ensures AllProper(Lowered(r)) && AllProper(Raised(r))
    ensures InAny(Lowered(r), x) <==> IsLower(x) && Has(r, x - 32)
    ensures InAny(Raised(r), x) <==> IsUpper(x) && Has(r, x + 32)
  {
    OtherCase(Max(65, r.lo));
    OtherCase(Min(r.hi, 90));
    OtherCase(Max(97, r.lo));
    OtherCase(Min(r.hi, 122));
    if Lowered(r) != [] {
      InAnyOne(Lowered(r)[0], x);
    }
    if Raised(r) != [] {
      InAnyOne(Raised(r)[0], x);
    }
  }

  lemma ExpandedFolds(r: Range, x: nat)
    requires r.lo <= r.hi
    ensures AllProper(Expanded(r))
    ensures InAny(Expanded(r), x) <==> Folds([r], x)
  {
    hide InAny, Lowered, Raised;
    OtherCaseRanges(r, x);
    InAnyConcat([r], Lowered(r), x);
    InAnyConcat([r] + Lowered(r), Raised(r), x);
    InAnyOne(r, x);
    if IsLower(x) {
      InAnyOne(r, x - 32);
    }
    if IsUpper(x) {
      InAnyOne(r, x + 32);
    }
  }

  lemma InAnyOne(r: Range, x: nat)
    ensures InAny([r], x) <==> Has(r, x)
  {
    assert [r][0] == r;
  }

  lemma InAnyConcat(a: seq<Range>, b: seq<Range>, x: nat)
    ensures InAny(a + b, x) <==> InAny(a, x) || InAny(b, x)
  {
    if InAny(a, x) {
      var i :| 0 <= i < |a| && Has(a[i], x);
      assert Has((a + b)[i], x);
    }
    if InAny(b, x) {
      var i :| 0 <= i < |b| && Has(b[i], x);
      assert Has((a + b)[|a| + i], x);
    }
  }

  // ---------- sorting ----------

  /** The comparator: by start, and of two that start together the longer first. */
  predicate Before(a: Range, b: Range) {
    a.lo < b.lo || (a.lo == b.lo && a.hi >= b.hi)
  }

  ghost predicate IsSorted(ranges: seq<Range>) {
    forall i, j :: 0 <= i < j < |ranges| ==> Before(ranges[i], ranges[j])
  }

  function Insert(r: Range, ranges: seq<Range>): (s: seq<Range>)
    ensures multiset(s) == multiset(ranges) + multiset{r}
  {
    if ranges == [] || Before(r, ranges[0]) then [r] + ranges
    else
      assert ranges == [ranges[0]] + ranges[1..];
      [ranges[0]] + Insert(r, ranges[1..])
  }

  /** `ranges.sort(...)`. */
  function Sorted(ranges: seq<Range>): (s: seq<Range>)
    ensures multiset(s) == multiset(ranges)
  {
    if ranges == [] then []
    else
      assert ranges == [ranges[0]] + ranges[1..];
      Insert(ranges[0], Sorted(ranges[1..]))
  }

  lemma {:induction false} InsertSorts(r: Range, ranges: seq<Range>)
    requires IsSorted(ranges)
    ensures IsSorted(Insert(r, ranges))
  {
    if ranges != [] && !Before(r, ranges[0]) {
      var tail := Insert(r, ranges[1..]);
      InsertSorts(r, ranges[1..]);
      forall i | 0 <= i < |tail|
        ensures Before(ranges[0], tail[i])
      {
        assert tail[i] in multiset(tail);
        assert tail[i] == r || tail[i] in ranges[1..];
      }
    }
  }

  lemma {:induction false} SortSorts(ranges: seq<Range>)
    ensures IsSorted(Sorted(ranges))
  {
    if ranges != [] {
      SortSorts(ranges[1..]);
      InsertSorts(ranges[0], Sorted(ranges[1..]));
    }
  }

  lemma SortedDenotesSame(ranges: seq<Range>, x: nat)
    ensures InAny(Sorted(ranges), x) <==> InAny(ranges, x)
    ensures AllProper(ranges) ==> AllProper(Sorted(ranges))
  {
    var s := Sorted(ranges);
    forall r
      ensures r in s <==> r in ranges
    {
      assert r in multiset(s) <==> r in multiset(ranges);
    }
    if InAny(s, x) {
      var i :| 0 <= i < |s| && Has(s[i], x);
      assert s[i] in ranges;
    }
    if InAny(ranges, x) {
      var i :| 0 <= i < |ranges| && Has(ranges[i], x);
      assert ranges[i] in s;
    }
    if AllProper(ranges) {
      forall i | 0 <= i < |s|
        ensures s[i].lo <= s[i].hi
      {
        assert s[i] in ranges;
      }
    }
  }

  // ---------- consolidation ----------

  /** Ascending ranges with at least one code between neighbours. */
  ghost predicate IsNormal(ranges: seq<Range>) {
    AllProper(ranges) && forall i, j :: 0 <= i < j < |ranges| ==> ranges[i].hi + 1 < ranges[j].lo
  }

  /** The last range, made longer by one that starts inside it or next to it. */
  lemma MergeDenotes(consolidated: seq<Range>, range: Range, x: nat)
    requires consolidated != [] && range.lo <= range.hi
    requires var last := consolidated[|consolidated|-1]; last.lo <= last.hi && last.lo <= range.lo <= last.hi + 1
    ensures var n := |consolidated|; var last := consolidated[n-1];
      InAny(consolidated[n-1 := Range(last.lo, Max(last.hi, range.hi))], x) <==> InAny(consolidated, x) || Has(range, x)
  {
    var n := |consolidated|;
    var last := consolidated[n-1];
    var merged := Range(last.lo, Max(last.hi, range.hi));
    assert consolidated == consolidated[..n-1] + [last];
    assert consolidated[n-1 := merged] == consolidated[..n-1] + [merged];
    InAnyConcat(consolidated[..n-1], [last], x);
    InAnyConcat(consolidated[..n-1], [merged], x);
    InAnyOne(last, x);
    InAnyOne(merged, x);
  }

  method Consolidate(ranges: seq<Range>) returns (consolidated: seq<Range>)
    requires IsSorted(ranges) && AllProper(ranges)
    ensures IsNormal(consolidated)
    ensures forall x :: InAny(consolidated, x) <==> InAny(ranges, x)
  {
    hide InAny;
    consolidated := [];
    NoneInEmpty(ranges[..0]);
    for i := 0 to |ranges|
      invariant IsNormal(consolidated)
      invariant consolidated != [] ==>
        forall j :: i <= j < |ranges| ==> consolidated[|consolidated|-1].lo <= ranges[j].lo
      invariant forall x :: InAny(consolidated, x) <==> InAny(ranges[..i], x)
    {
      var range := ranges[i];
      var n := |consolidated|;
      ghost var before := consolidated;
      var merges := n > 0 && range.lo <= consolidated[n-1].hi + 1;
      if merges {
        consolidated := consolidated[n-1 := Range(consolidated[n-1].lo, Max(consolidated[n-1].hi, range.hi))];
      } else {
        consolidated := consolidated + [range];
      }
      assert ranges[..i+1] == ranges[..i] + [range];
      forall x
        ensures InAny(consolidated, x) <==> InAny(ranges[..i+1], x)
      {
        InAnyConcat(ranges[..i], [range], x);
        InAnyOne(range, x);
        if merges {
          MergeDenotes(before, range, x);
        } else {
          InAnyConcat(before, [range], x);
        }
      }
    }
    assert ranges[..|ranges|] == ranges;
  }

  lemma NoneInEmpty(ranges: seq<Range>)
    requires ranges == []
    ensures forall x :: !InAny(ranges, x)
  {
  }

  // ---------- the whole fold ----------

  /** The ranges part of caseFoldCharset, from the ranges of the set to those printed. */
  method CaseFoldRanges(parts: seq<Range>) returns (consolidated: seq<Range>)
    requires AllProper(parts)
    ensures IsNormal(consolidated)
    ensures forall x :: InAny(consolidated, x) <==> Folds(parts, x)
  {
    hide InAny, Sorted;
    var ranges: seq<Range> := [];
    NoneInEmpty(ranges);
    NoneInEmpty(parts[..0]);
    for i := 0 to |parts|
      invariant AllProper(ranges)
      invariant forall x :: InAny(ranges, x) <==> Folds(parts[..i], x)
    {
      var start, end := parts[i].lo, parts[i].hi;
      ghost var before := ranges;
      ranges := ranges + [Range(start, end)];
      if !(end < 65 || start > 122) {
        if !(end < 65 || start > 90) {
          ranges := ranges + [Range(Or32(Max(65, start)), Or32(Min(end, 90)))];
        }
        if !(end < 97 || start > 122) {
          ranges := ranges + [Range(AndNot32(Max(97, start)), AndNot32(Min(end, 122)))];
        }
      }
      assert ranges == before + Expanded(parts[i]);
      FoldStep(parts, i, before);
    }
    assert parts[..|parts|] == parts;
    var sorted := Sorted(ranges);
    forall x
      ensures InAny(sorted, x) <==> InAny(ranges, x)
    {
      SortedDenotesSame(ranges, x);
    }
    SortedDenotesSame(ranges, 0);
    SortSorts(ranges);
    consolidated := Consolidate(sorted);
  }

  lemma FoldStep(parts: seq<Range>, i: nat, before: seq<Range>)
    requires i < |parts| && AllProper(parts) && AllProper(before)
    requires forall x :: InAny(before, x) <==> Folds(parts[..i], x)
    ensures AllProper(before + Expanded(parts[i]))
    ensures forall x :: InAny(before + Expanded(parts[i]), x) <==> Folds(parts[..i+1], x)
  {
    hide InAny, Expanded;
    ExpandedFolds(parts[i], 0);
    assert parts[..i+1] == parts[..i] + [parts[i]];
    forall x: nat
      ensures InAny(before + Expanded(parts[i]), x) <==> Folds(parts[..i+1], x)
    {
      InAnyConcat(before, Expanded(parts[i]), x);
      ExpandedFolds(parts[i], x);
      InAnyConcat(parts[..i], [parts[i]], x);
      if IsLower(x) {
        InAnyConcat(parts[..i], [parts[i]], x - 32);
      }
      if IsUpper(x) {
        InAnyConcat(parts[..i], [parts[i]], x + 32);
      }
    }
  }

  /** A set of characters has only one normal form: what is printed depends on nothing but the set. */
  lemma {:induction false} NormalFormUnique(a: seq<Range>, b: seq<Range>)
    requires IsNormal(a) && IsNormal(b)
    requires forall x :: InAny(a, x) <==> InAny(b, x)
    ensures a == b
    decreases |a|
  {
    if a == [] || b == [] {
      if a != [] {
        assert Has(a[0], a[0].lo);
        assert InAny(a, a[0].lo);
      }
      if b != [] {
        assert Has(b[0], b[0].lo);
        assert InAny(b, b[0].lo);
      }
    } else {
      FirstRange(a, b);
      FirstRange(b, a);
      forall x
        ensures InAny(a[1..], x) <==> InAny(b[1..], x)
      {
        RestDenotes(a, x);
        RestDenotes(b, x);
      }
      NormalFormUnique(a[1..], b[1..]);
      assert a == [a[0]] + a[1..] && b == [b[0]] + b[1..];
    }
  }

  lemma RestDenotes(a: seq<Range>, x: nat)
    requires IsNormal(a) && a != []
    ensures InAny(a[1..], x) <==> InAny(a, x) && x > a[0].hi
  {
    assert a == [a[0]] + a[1..];
    InAnyConcat([a[0]], a[1..], x);
    InAnyOne(a[0], x);
    if InAny(a[1..], x) {
      var i :| 0 <= i < |a[1..]| && Has(a[1..][i], x);
      assert a[1..][i] == a[i+1];
    }
  }

  /** The first range of `a` cannot start after that of `b`, nor go on further if they start together. */
  lemma FirstRange(a: seq<Range>, b: seq<Range>)
    requires IsNormal(a) && IsNormal(b) && a != [] && b != []
    requires forall x :: InAny(a, x) <==> InAny(b, x)
    ensures a[0].lo >= b[0].lo
    ensures a[0].lo == b[0].lo ==> a[0].hi <= b[0].hi
  {
    assert Has(a[0], a[0].lo);
    assert InAny(a, a[0].lo);
    var i :| 0 <= i < |b| && Has(b[i], a[0].lo);
    var x := b[0].hi + 1;
    GapAfterFirst(b);
    assert Has(a[0], x) ==> InAny(a, x);
  }

  lemma GapAfterFirst(b: seq<Range>)
    requires IsNormal(b) && b != []
    ensures !InAny(b, b[0].hi + 1)
  {
    forall k | 0 <= k < |b|
      ensures !Has(b[k], b[0].hi + 1)
    {
      assert k > 0 ==> b[0].hi + 1 < b[k].lo;
    }
  }
}
