/** Combinations of packs: the mathematical side of the pack-size problem.

    A combination is written two ways. As a pack list (one entry per shipped
    pack, in any order) it is easy to extend and to reason about; as a map from
    pack size to pack count it is what the calculator hands back. Tally turns
    the first into the second, and TotalItems / TotalPacks are the two sums the
    source keeps beside every map (totalItems and totalPacks of packSolution).
 */
module Combination {

  /** Every pack size is a positive integer (what the validation loops demand). */
  predicate AllPositive(sizes: seq<int>) {
    forall k :: 0 <= k < |sizes| ==> sizes[k] > 0
  }

  /** ps lists whole packs, each of one of the available sizes. */
  ghost predicate PackList(sizes: seq<int>, ps: seq<int>) {
    forall k :: 0 <= k < |ps| ==> ps[k] in sizes
  }

  /** Number of items shipped by a pack list. */
  function Sum(ps: seq<int>): int {
    if ps == [] then 0 else Sum(ps[..|ps| - 1]) + ps[|ps| - 1]
  }

  /** n items can be shipped exactly with whole packs of the given sizes. */
  ghost predicate Representable(sizes: seq<int>, n: int) {
    exists qs :: PackList(sizes, qs) && Sum(qs) == n
  }

  /** ps meets the order with the fewest items and, for that number of items,
      with the fewest packs: rules 2 and 3 of the calculator. */
  ghost predicate Optimal(sizes: seq<int>, order: int, ps: seq<int>) {
    && PackList(sizes, ps)
    && Sum(ps) >= order
    && (forall qs :: PackList(sizes, qs) && Sum(qs) >= order ==> Sum(ps) <= Sum(qs))
    && (forall qs :: PackList(sizes, qs) && Sum(qs) == Sum(ps) ==> |ps| <= |qs|)
  }

  /** One more pack of size s: `packs[s]++` on a Go map, where a missing key reads as 0. */
  function Inc(m: map<int, int>, s: int): map<int, int> {
    m[s := (if s in m then m[s] else 0) + 1]
  }

  /** The size-to-count map of a pack list. */
  function Tally(ps: seq<int>): (m: map<int, int>)
    ensures forall k :: k in m <==> k in ps
    ensures forall k :: k in m ==> m[k] >= 1
  {
    map k | k in ps :: multiset(ps)[k]
  }

  /** Σ size × count over a size-to-count map. */
  ghost function TotalItems(m: map<int, int>): int
    decreases m.Keys
  {
    if exists k :: k in m then var k :| k in m; k * m[k] + TotalItems(m - {k}) else 0
  }

  /** Σ count over a size-to-count map. */
  ghost function TotalPacks(m: map<int, int>): int
    decreases m.Keys
  {
    if exists k :: k in m then var k :| k in m; m[k] + TotalPacks(m - {k}) else 0
  }

  // ----- sums over pack lists -----

  lemma SumAppend(ps: seq<int>, s: int)
    ensures Sum(ps + [s]) == Sum(ps) + s
  {
    assert (ps + [s])[..|ps|] == ps;
  }

  /** With positive sizes every pack weighs at least one item, so no pack outweighs
      the whole list and a non-empty list ships something. */
  lemma {:induction false} SumBounds(sizes: seq<int>, ps: seq<int>)
    requires AllPositive(sizes) && PackList(sizes, ps)
    ensures Sum(ps) >= |ps|
    ensures forall k :: 0 <= k < |ps| ==> ps[k] <= Sum(ps)
  {
    if ps != [] {
      var init := ps[..|ps| - 1];
      assert PackList(sizes, init) by {
        forall k | 0 <= k < |init| ensures init[k] in sizes { assert init[k] == ps[k]; }
      }
      SumBounds(sizes, init);
      assert ps[|ps| - 1] > 0;
      forall k | 0 <= k < |ps| ensures ps[k] <= Sum(ps) {
        if k < |ps| - 1 { assert ps[k] == init[k]; }
      }
    }
  }

  /** q packs of size s ship q × s items. */
  lemma {:induction false} SumRepeat(s: int, q: nat)
    ensures Sum(seq(q, _ => s)) == q * s
  {
    if q > 0 {
      var r := seq(q, _ => s);
      assert r[..q - 1] == seq(q - 1, _ => s);
      SumRepeat(s, q - 1);
    }
  }

  /** When every size is a multiple of g, so is every shippable amount. */
  lemma {:induction false} SumOfMultiples(sizes: seq<int>, ps: seq<int>, g: int)
    requires g > 0
    requires forall k :: 0 <= k < |sizes| ==> sizes[k] % g == 0
    requires PackList(sizes, ps)
    ensures exists q :: Sum(ps) == g * q
  {
    if ps == [] {
      assert Sum(ps) == g * 0;
    } else {
      var init := ps[..|ps| - 1];
      assert PackList(sizes, init) by {
        forall k | 0 <= k < |init| ensures init[k] in sizes { assert init[k] == ps[k]; }
      }
      SumOfMultiples(sizes, init, g);
      var a :| Sum(init) == g * a;
      var last := ps[|ps| - 1];
      var j :| 0 <= j < |sizes| && sizes[j] == last;
      var b := last / g;
      assert last == g * b + last % g;
      assert g * (a + b) == g * a + g * b;
      assert Sum(ps) == g * (a + b);
    }
  }

  /** Some multiple of the size m lies in [order, order + m - 1]. */
  lemma MultipleInWindow(sizes: seq<int>, m: int, order: int)
    requires m in sizes && m > 0 && order > 0
    ensures exists n :: order <= n < order + m && Representable(sizes, n)
  {
    var q := (order + m - 1) / m;
    var r := (order + m - 1) % m;
    assert order + m - 1 == q * m + r && 0 <= r < m;
    var ps := seq(q, _ => m);
    SumRepeat(m, q);
    assert PackList(sizes, ps);
    assert order <= q * m < order + m;
    assert Representable(sizes, q * m);
  }

  // ----- the map view -----

  lemma TallyEmpty()
    ensures Tally([]) == map[]
  {
  }

  /** Recording one more pack in the list is `packs[s]++` on its map:
      the copy-and-increment of the source's table update. */
  lemma TallyAppend(ps: seq<int>, s: int)
    ensures Tally(ps + [s]) == Inc(Tally(ps), s)
  {
    var l, r := Tally(ps + [s]), Inc(Tally(ps), s);
    assert multiset(ps + [s]) == multiset(ps) + multiset{s};
    forall k ensures k in l <==> k in r { assert k in ps + [s] <==> k in ps || k == s; }
    forall k | k in l ensures l[k] == r[k] {
      if k == s {
        assert k in ps <==> multiset(ps)[k] > 0;
      }
    }
  }

  /** The map of a pack list depends only on which packs it holds, not on their order. */
  lemma TallyPermutation(ps: seq<int>, qs: seq<int>)
    requires multiset(ps) == multiset(qs)
    ensures Tally(ps) == Tally(qs)
  {
    forall k ensures k in ps <==> k in qs {
      assert k in ps <==> k in multiset(ps);
      assert k in qs <==> k in multiset(qs);
    }
  }

  lemma {:induction false} TotalItemsRemove(m: map<int, int>, k: int)
    requires k in m
    ensures TotalItems(m) == k * m[k] + TotalItems(m - {k})
    decreases m.Keys
  {
    var j :| j in m && TotalItems(m) == j * m[j] + TotalItems(m - {j});
    if j != k {
      TotalItemsRemove(m - {j}, k);
      TotalItemsRemove(m - {k}, j);
      assert m - {j} - {k} == m - {k} - {j};
    }
  }

  lemma {:induction false} TotalPacksRemove(m: map<int, int>, k: int)
    requires k in m
    ensures TotalPacks(m) == m[k] + TotalPacks(m - {k})
    decreases m.Keys
  {
    var j :| j in m && TotalPacks(m) == m[j] + TotalPacks(m - {j});
    if j != k {
      TotalPacksRemove(m - {j}, k);
      TotalPacksRemove(m - {k}, j);
      assert m - {j} - {k} == m - {k} - {j};
    }
  }

  /** Setting the count of one size replaces its share of the item total. */
  lemma TotalItemsUpdate(m: map<int, int>, k: int, v: int)
    ensures TotalItems(m[k := v]) == TotalItems(m - {k}) + k * v
  {
    TotalItemsRemove(m[k := v], k);
    assert m[k := v] - {k} == m - {k};
  }

  lemma TotalItemsInc(m: map<int, int>, s: int)
    ensures TotalItems(Inc(m, s)) == TotalItems(m) + s
  {
    TotalItemsUpdate(m, s, (if s in m then m[s] else 0) + 1);
    if s in m {
      TotalItemsRemove(m, s);
    } else {
      assert m - {s} == m;
    }
  }

  lemma TotalPacksInc(m: map<int, int>, s: int)
    ensures TotalPacks(Inc(m, s)) == TotalPacks(m) + 1
  {
    TotalPacksRemove(Inc(m, s), s);
    assert Inc(m, s) - {s} == m - {s};
    if s in m {
      TotalPacksRemove(m, s);
    } else {
      assert m - {s} == m;
    }
  }

  /** The two sums carried beside a map agree with its pack list:
      Σ size × count is the number of items and Σ count the number of packs. */
  lemma {:induction false} TallyTotals(ps: seq<int>)
    ensures TotalItems(Tally(ps)) == Sum(ps)
    ensures TotalPacks(Tally(ps)) == |ps|
  {
    if ps != [] {
      var init, last := ps[..|ps| - 1], ps[|ps| - 1];
      assert ps == init + [last];
      TallyTotals(init);
      TallyAppend(init, last);
      TotalItemsInc(Tally(init), last);
      TotalPacksInc(Tally(init), last);
    }
  }

  /** The map of a pack list names only available sizes, each at least once. */
  lemma TallyWellFormed(sizes: seq<int>, ps: seq<int>)
    requires PackList(sizes, ps)
    ensures forall k :: k in Tally(ps) ==> k in sizes && Tally(ps)[k] >= 1
  {
    forall k | k in Tally(ps) ensures k in sizes {
      var j :| 0 <= j < |ps| && ps[j] == k;
    }
  }

  /** Optimality only looks at which sizes are available, not at their order. */
  lemma OptimalSameSizes(a: seq<int>, b: seq<int>, order: int, ps: seq<int>)
    requires forall x :: x in a <==> x in b
    requires Optimal(a, order, ps)
    ensures Optimal(b, order, ps)
  {
    forall qs ensures PackList(a, qs) <==> PackList(b, qs) {
      forall k | 0 <= k < |qs| ensures qs[k] in a <==> qs[k] in b {
        var x := qs[k];
        assert x in a <==> x in b;
      }
    }
  }

  /** Rules 2 and 3 fix both objectives: two optimal answers ship the same
      number of items in the same number of packs. */
  lemma OptimalTotalsUnique(sizes: seq<int>, order: int, ps: seq<int>, qs: seq<int>)
    requires Optimal(sizes, order, ps) && Optimal(sizes, order, qs)
    ensures Sum(ps) == Sum(qs) && |ps| == |qs|
  {
  }

  /** A larger order never ships fewer items. */
  lemma OptimalMonotone(sizes: seq<int>, o1: int, o2: int, p1: seq<int>, p2: seq<int>)
    requires o1 <= o2
    requires Optimal(sizes, o1, p1) && Optimal(sizes, o2, p2)
    ensures Sum(p1) <= Sum(p2)
  {
  }

  /** The optimal answer read as the size-to-count map the calculator returns: it names
      available sizes only, ships at least the order, and no map of any other packing that
      meets the order ships fewer items, or as many items in fewer packs. */
  lemma OptimalMap(sizes: seq<int>, order: int, ps: seq<int>)
    requires Optimal(sizes, order, ps)
    ensures forall k :: k in Tally(ps) ==> k in sizes && Tally(ps)[k] >= 1
    ensures TotalItems(Tally(ps)) >= order
    ensures forall qs :: PackList(sizes, qs) && Sum(qs) >= order ==>
      && TotalItems(Tally(ps)) <= TotalItems(Tally(qs))
      && (TotalItems(Tally(ps)) == TotalItems(Tally(qs)) ==> TotalPacks(Tally(ps)) <= TotalPacks(Tally(qs)))
  {
    TallyWellFormed(sizes, ps);
    TallyTotals(ps);
    forall qs | PackList(sizes, qs) && Sum(qs) >= order
      ensures && TotalItems(Tally(ps)) <= TotalItems(Tally(qs))
              && (TotalItems(Tally(ps)) == TotalItems(Tally(qs)) ==> TotalPacks(Tally(ps)) <= TotalPacks(Tally(qs)))
    {
      TallyTotals(qs);
    }
  }
}
