/** The answers the repository's tests expect, derived from the optimality that
    CalculatePacks guarantees: for each order, every optimal packing has the expected map. */
module Scenarios {
  import opened Combination
  import opened Sorting

  /** The default pack sizes of the service. */
  const Standard: seq<int> := [250, 500, 1000, 2000, 5000]

  // ----- proof tools -----

  lemma {:induction false} SumSmall(d: seq<int>)
    ensures |d| == 1 ==> Sum(d) == d[0]
    ensures |d| == 2 ==> Sum(d) == d[0] + d[1]
    ensures |d| == 3 ==> Sum(d) == d[0] + d[1] + d[2]
    ensures |d| == 4 ==> Sum(d) == d[0] + d[1] + d[2] + d[3]
    decreases |d|
  {
    if d != [] {
      SumSmall(d[..|d| - 1]);
    }
  }

  /** The descending arrangement of a packing: the same packs, items, count and map. */
  lemma Canonical(sizes: seq<int>, ps: seq<int>) returns (d: seq<int>)
    requires PackList(sizes, ps)
    ensures PackList(sizes, d) && Descending(d)
    ensures Sum(d) == Sum(ps) && |d| == |ps| && Tally(d) == Tally(ps)
  {
    d := SortDesc(ps);
    TallyPermutation(ps, d);
    TallyTotals(ps);
    TallyTotals(d);
    forall k | 0 <= k < |d| ensures d[k] in sizes {
      assert d[k] in multiset(ps);
      var j :| 0 <= j < |ps| && ps[j] == d[k];
    }
  }

  /** When every size is a multiple of g and the packing w ships the least multiple of g at
      or above the order, an optimal packing ships what w ships, in at most as many packs. */
  lemma PinDown(sizes: seq<int>, order: int, ps: seq<int>, w: seq<int>, g: int)
    requires Optimal(sizes, order, ps)
    requires PackList(sizes, w) && Sum(w) >= order
    requires g > 0 && forall k :: 0 <= k < |sizes| ==> sizes[k] % g == 0
    requires Sum(w) - g < order
    ensures Sum(ps) == Sum(w) && |ps| <= |w|
  {
    SumOfMultiples(sizes, ps, g);
    SumOfMultiples(sizes, w, g);
    var a :| Sum(ps) == g * a;
    var b :| Sum(w) == g * b;
    assert Sum(ps) <= Sum(w);
    SameMultiple(g, a, b, order);
  }

  /** Two multiples of g at or above the order, neither above the other and the larger less
      than g past the order, are the same multiple. */
  lemma SameMultiple(g: int, a: int, b: int, order: int)
    requires g > 0 && g * a >= order && g * b - g < order && g * a <= g * b
    ensures a == b
  {
    MulOrder(g, b, a);
    MulOrder(g, b - 1, a);
    assert g * (b - 1) == g * b - g;
  }

  lemma MulOrder(g: int, x: int, y: int)
    requires g > 0
    ensures x < y <==> g * x < g * y
  {
    if x < y {
      assert g * (y - x) > 0;
    } else {
      assert g * (x - y) >= 0;
    }
  }

  /** The descending packings of at most four standard packs that ship 12250 or 12500 items. */
  lemma FourStandardPacks(d: seq<int>, n: int)
    requires PackList(Standard, d) && Descending(d) && |d| <= 4
    requires n == 12250 || n == 12500
    requires Sum(d) == n
    ensures n == 12250 ==> d == [5000, 5000, 2000, 250]
    ensures n == 12500 ==> d == [5000, 5000, 2000, 500]
  {
    SumSmall(d);
    forall k | 0 <= k < |d| ensures d[k] == 250 || d[k] == 500 || d[k] == 1000 || d[k] == 2000 || d[k] == 5000 {
      assert d[k] in Standard;
    }
    assert |d| == 4;
    assert d[0] >= d[1] >= d[2] >= d[3];
    assert d[0] == 5000 && d[1] == 5000;
    assert d[2] == 2000;
  }

  lemma TallyTwoOneOne(a: int, b: int, c: int)
    requires a != b && b != c && a != c
    ensures Tally([a, a, b, c]) == map[a := 2, b := 1, c := 1]
  {
    assert multiset([a, a, b, c]) == multiset{a, a, b, c};
  }

  lemma TallyOne(a: int)
    ensures Tally([a]) == map[a := 1]
  {
    assert multiset([a]) == multiset{a};
  }

  // ----- internal/pack/pack_test.go, sizes 250, 500, 1000, 2000, 5000 -----

  /** Orders of 1 and 250 items: one pack of 250. */
  lemma SmallOrders(order: int)
    requires 1 <= order <= 250
    ensures forall ps :: Optimal(Standard, order, ps) ==> Tally(ps) == map[250 := 1]
  {
    forall ps | Optimal(Standard, order, ps) ensures Tally(ps) == map[250 := 1] {
      var w := [250];
      SumSmall(w);
      PinDown(Standard, order, ps, w, 250);
      var d := Canonical(Standard, ps);
      SumSmall(d);
      assert d == [250];
      TallyOne(250);
    }
  }

  /** An order of 251: one pack of 500, not two of 250. */
  lemma Order251()
    ensures forall ps :: Optimal(Standard, 251, ps) ==> Tally(ps) == map[500 := 1]
  {
    forall ps | Optimal(Standard, 251, ps) ensures Tally(ps) == map[500 := 1] {
      var w := [500];
      SumSmall(w);
      PinDown(Standard, 251, ps, w, 250);
      var d := Canonical(Standard, ps);
      SumSmall(d);
      assert d == [500];
      TallyOne(500);
    }
  }

  /** An order of 501: one pack of 500 and one of 250. */
  lemma Order501()
    ensures forall ps :: Optimal(Standard, 501, ps) ==> Tally(ps) == map[500 := 1, 250 := 1]
  {
    forall ps | Optimal(Standard, 501, ps) ensures Tally(ps) == map[500 := 1, 250 := 1] {
      var w := [500, 250];
      SumSmall(w);
      PinDown(Standard, 501, ps, w, 250);
      var d := Canonical(Standard, ps);
      SumSmall(d);
      assert d == w;
      assert multiset(w) == multiset{500, 250};
    }
  }

  /** An order of 12001: two packs of 5000, one of 2000 and one of 250. */
  lemma Order12001()
    ensures forall ps :: Optimal(Standard, 12001, ps) ==> Tally(ps) == map[5000 := 2, 2000 := 1, 250 := 1]
  {
    forall ps | Optimal(Standard, 12001, ps) ensures Tally(ps) == map[5000 := 2, 2000 := 1, 250 := 1] {
      var w := [5000, 5000, 2000, 250];
      SumSmall(w);
      PinDown(Standard, 12001, ps, w, 250);
      var d := Canonical(Standard, ps);
      FourStandardPacks(d, 12250);
      assert d == w;
      TallyTwoOneOne(5000, 2000, 250);
    }
  }

  /** internal/server/handlers_test.go: an order of 12500 is met exactly with two packs of
      5000, one of 2000 and one of 500. */
  lemma Order12500()
    ensures forall ps :: Optimal(Standard, 12500, ps) ==> Tally(ps) == map[5000 := 2, 2000 := 1, 500 := 1]
  {
    forall ps | Optimal(Standard, 12500, ps) ensures Tally(ps) == map[5000 := 2, 2000 := 1, 500 := 1] {
      var w := [5000, 5000, 2000, 500];
      SumSmall(w);
      PinDown(Standard, 12500, ps, w, 250);
      var d := Canonical(Standard, ps);
      FourStandardPacks(d, 12500);
      assert d == w;
      TallyTwoOneOne(5000, 2000, 500);
    }
  }

  // ----- internal/pack/pack_test.go, edge cases -----

  /** Sizes 25 and 100, an order of 74: three packs of 25 ship fewer items than one of 100. */
  lemma Order74()
    ensures forall ps :: Optimal([25, 100], 74, ps) ==> Tally(ps) == map[25 := 3]
  {
    forall ps | Optimal([25, 100], 74, ps) ensures Tally(ps) == map[25 := 3] {
      var w := [25, 25, 25];
      SumSmall(w);
      PinDown([25, 100], 74, ps, w, 25);
      var d := Canonical([25, 100], ps);
      SumSmall(d);
      assert d == w;
      assert multiset(w) == multiset{25, 25, 25};
    }
  }

  /** Sizes 25 and 100, an order of 76: one pack of 100. */
  lemma Order76()
    ensures forall ps :: Optimal([25, 100], 76, ps) ==> Tally(ps) == map[100 := 1]
  {
    forall ps | Optimal([25, 100], 76, ps) ensures Tally(ps) == map[100 := 1] {
      var w := [100];
      SumSmall(w);
      PinDown([25, 100], 76, ps, w, 25);
      var d := Canonical([25, 100], ps);
      SumSmall(d);
      assert d == w;
      TallyOne(100);
    }
  }

  /** Sizes 25 and 100, an order of 24: one pack of 25. */
  lemma Order24()
    ensures forall ps :: Optimal([25, 100], 24, ps) ==> Tally(ps) == map[25 := 1]
  {
    forall ps | Optimal([25, 100], 24, ps) ensures Tally(ps) == map[25 := 1] {
      var w := [25];
      SumSmall(w);
      PinDown([25, 100], 24, ps, w, 25);
      var d := Canonical([25, 100], ps);
      SumSmall(d);
      assert d == w;
      TallyOne(25);
    }
  }

  /** Sizes 100, 80 and 20, an order of 99: one pack of 100 rather than 80 + 20. */
  lemma Order99()
    ensures forall ps :: Optimal([100, 80, 20], 99, ps) ==> Tally(ps) == map[100 := 1]
  {
    forall ps | Optimal([100, 80, 20], 99, ps) ensures Tally(ps) == map[100 := 1] {
      var w := [100];
      SumSmall(w);
      PinDown([100, 80, 20], 99, ps, w, 20);
      var d := Canonical([100, 80, 20], ps);
      SumSmall(d);
      assert d == w;
      TallyOne(100);
    }
  }
}
