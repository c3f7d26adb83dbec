/** The order of strings, sorting, and lists without repetition. */
module Ordering {

  predicate StringLess(a: string, b: string) {
    b != "" && (a == "" || a[0] < b[0] || (a[0] == b[0] && StringLess(a[1..], b[1..])))
  }

  lemma {:induction false} LessTransitive(a: string, b: string, c: string)
    requires !StringLess(b, a) && !StringLess(c, b)
    ensures !StringLess(c, a)
  {
    if a != "" && b != "" && c != "" && a[0] == b[0] == c[0] {
      LessTransitive(a[1..], b[1..], c[1..]);
    }
  }

  lemma {:induction false} LessTotal(a: string, b: string)
    ensures StringLess(a, b) ==> !StringLess(b, a)
    ensures !StringLess(a, b) && !StringLess(b, a) ==> a == b
  {
    if a != "" && b != "" && a[0] == b[0] {
      LessTotal(a[1..], b[1..]);
      assert a == [a[0]] + a[1..] && b == [b[0]] + b[1..];
    }
  }

  lemma {:induction false} PrefixIsLess(a: string, b: string)
    requires a <= b && a != b
    ensures StringLess(a, b)
  {
    if a != "" {
      assert a == [a[0]] + a[1..] && b == [b[0]] + b[1..];
      PrefixIsLess(a[1..], b[1..]);
    }
  }

  /** Two strings are ordered by the first characters in which they differ. */
  lemma {:induction false} FirstDifferenceDecides(prefix: string, x: char, a: string, y: char, b: string)
    requires x != y
    ensures StringLess(prefix + [x] + a, prefix + [y] + b) <==> x < y
  {
    var s, t := prefix + [x] + a, prefix + [y] + b;
    if prefix == "" {
      assert s[0] == x && t[0] == y;
    } else {
      FirstDifferenceDecides(prefix[1..], x, a, y, b);
      assert s[0] == t[0] == prefix[0];
      assert s[1..] == prefix[1..] + [x] + a && t[1..] == prefix[1..] + [y] + b;
    }
  }

  ghost predicate SortedStrings(list: seq<string>) {
    forall i, j :: 0 <= i < j < |list| ==> !StringLess(list[j], list[i])
  }

  /** Some sort of strings. */
  method SortStrings(list: seq<string>) returns (sorted: seq<string>)
    ensures SortedStrings(sorted) && multiset(sorted) == multiset(list)
  {
    sorted := [];
    for n := 0 to |list|
      invariant SortedStrings(sorted) && multiset(sorted) == multiset(list[..n])
    {
      assert list[..n+1] == list[..n] + [list[n]];
      sorted := InsertString(sorted, list[n]);
    }
    assert list[..|list|] == list;
  }

  method InsertString(sorted: seq<string>, s: string) returns (r: seq<string>)
    requires SortedStrings(sorted)
    ensures SortedStrings(r) && multiset(r) == multiset(sorted) + multiset{s}
  {
    hide StringLess;
    var k := |sorted|;
    while k > 0 && StringLess(s, sorted[k-1])
      invariant 0 <= k <= |sorted|
      invariant forall j :: k <= j < |sorted| ==> StringLess(s, sorted[j])
    {
      k := k - 1;
    }
    InsertedInOrder(sorted, s, k);
    assert sorted == sorted[..k] + sorted[k..];
    r := sorted[..k] + [s] + sorted[k..];
  }

  lemma InsertedInOrder(sorted: seq<string>, s: string, k: nat)
    requires SortedStrings(sorted) && k <= |sorted|
    requires forall j :: k <= j < |sorted| ==> StringLess(s, sorted[j])
    requires k > 0 ==> !StringLess(s, sorted[k-1])
    ensures SortedStrings(sorted[..k] + [s] + sorted[k..])
  {
    var r := sorted[..k] + [s] + sorted[k..];
    forall i, j | 0 <= i < j < |r|
      ensures !StringLess(r[j], r[i])
    {
      if j == k {
        if i < k - 1 {
          LessTransitive(r[i], sorted[k-1], s);
        }
      } else if i == k {
        LessTotal(s, r[j]);
      }
    }
  }

  // ---------- lists without repetition ----------

  ghost predicate Distinct<T(!new)>(list: seq<T>) {
    forall i, j :: 0 <= i < j < |list| ==> list[i] != list[j]
  }

  lemma StillDistinct<T(!new)>(list: seq<T>, other: seq<T>)
    requires Distinct(list) && multiset(other) == multiset(list)
    ensures Distinct(other)
  {
    forall i, j | 0 <= i < j < |other|
      ensures other[i] != other[j]
    {
      if other[i] == other[j] {
        CountedTwice(other, i, j);
        CountedOnce(list, other[i]);
      }
    }
  }

  lemma CountedTwice<T(!new)>(list: seq<T>, i: nat, j: nat)
    requires i < j < |list| && list[i] == list[j]
    ensures multiset(list)[list[i]] >= 2
  {
    assert list == list[..i] + [list[i]] + list[i+1..j] + [list[j]] + list[j+1..];
  }

  lemma {:induction false} CountedOnce<T(!new)>(list: seq<T>, x: T)
    requires Distinct(list)
    ensures multiset(list)[x] <= 1
  {
    if list != [] {
      CountedOnce(list[1..], x);
      assert list == [list[0]] + list[1..];
      if list[0] == x {
        assert x !in list[1..];
        assert x !in multiset(list[1..]);
      }
    }
  }

  lemma SameMembers<T(!new)>(list: seq<T>, other: seq<T>)
    requires multiset(other) == multiset(list)
    ensures forall x :: x in other <==> x in list
  {
    forall x
      ensures x in other <==> x in list
    {
      assert x in multiset(other) <==> x in multiset(list);
    }
  }
}
