/** The in-place descending sort that CalculatePacks applies to the caller's slice
    (slices.SortFunc with the comparator b - a). */
module Sorting {

  predicate Descending(s: seq<int>) {
    forall i, j :: 0 <= i < j < |s| ==> s[i] >= s[j]
  }

  /** Inserts x into a descending sequence. */
  function InsertDesc(x: int, s: seq<int>): (r: seq<int>)
    requires Descending(s)
    ensures Descending(r)
    ensures multiset(r) == multiset(s) + multiset{x}
    ensures |r| == |s| + 1
    ensures r[0] == if s == [] || x >= s[0] then x else s[0]
  {
    if s == [] || x >= s[0] then
      [x] + s
    else
      var rest := InsertDesc(x, s[1..]);
      assert s == [s[0]] + s[1..];
      assert s[0] >= rest[0];
      [s[0]] + rest
  }

  /** The descending permutation of s. */
  function SortDesc(s: seq<int>): (r: seq<int>)
    ensures Descending(r)
    ensures multiset(r) == multiset(s)
    ensures |r| == |s|
  {
    if s == [] then
      []
    else
      assert s == [s[0]] + s[1..];
      InsertDesc(s[0], SortDesc(s[1..]))
  }

  /** A multiset has exactly one descending arrangement, so every sort with this
      comparator, stable or not, leaves the slice in the same state. */
  lemma {:induction false} DescendingUnique(a: seq<int>, b: seq<int>)
    requires Descending(a) && Descending(b)
    requires multiset(a) == multiset(b)
    ensures a == b
  {
    assert |b| == |a| by { assert |multiset(a)| == |a| && |multiset(b)| == |b|; }
    if a != [] {
      SameHead(a, b);
      TailMultiset(a);
      TailMultiset(b);
      DescendingUnique(a[1..], b[1..]);
      assert a == [a[0]] + a[1..] && b == [b[0]] + b[1..];
    }
  }

  /** Two descending arrangements of one multiset start with its largest element. */
  lemma SameHead(a: seq<int>, b: seq<int>)
    requires Descending(a) && Descending(b)
    requires multiset(a) == multiset(b) && a != [] && b != []
    ensures a[0] == b[0]
  {
    assert a[0] in multiset(b) && b[0] in multiset(a);
    var i :| 0 <= i < |b| && b[i] == a[0];
    var j :| 0 <= j < |a| && a[j] == b[0];
  }

  lemma TailMultiset(a: seq<int>)
    requires a != []
    ensures multiset(a[1..]) == multiset(a) - multiset{a[0]}
  {
    assert a == [a[0]] + a[1..];
  }

  /** Sorting keeps exactly the sizes that were there. */
  lemma SortDescSameMembers(s: seq<int>)
    ensures forall x :: x in SortDesc(s) <==> x in s
  {
    var r := SortDesc(s);
    forall x ensures x in r <==> x in s {
      assert x in r <==> x in multiset(r);
      assert x in s <==> x in multiset(s);
    }
  }

  /** slices.SortFunc(sizes, func(a, b int) int { return b - a }): the slice is rearranged
      in place into its descending permutation. */
  method SortInPlace(a: array<int>)
    modifies a
    ensures a[..] == SortDesc(old(a[..]))
  {
    var sorted := SortDesc(a[..]);
    forall i | 0 <= i < a.Length {
      a[i] := sorted[i];
    }
  }
}
