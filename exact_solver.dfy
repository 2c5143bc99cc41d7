/** The exact solver calculatePacksDp: an unbounded change-making table over every
    item count from 0 to order + (last size), then an upward scan from the order. */
module ExactSolver {
  import opened Combination
  import opened Solution

  /** No pack list for i items uses fewer than n packs. */
  ghost predicate FewestPacks(sizes: seq<int>, i: int, n: int) {
    forall qs :: PackList(sizes, qs) && Sum(qs) == i ==> n <= |qs|
  }

  /** Entry e of the table for i items, witnessed by the pack list path: it is valid
      exactly when i items can be shipped, and then it holds a packing of i items
      with the fewest packs, its map and its two totals. */
  ghost predicate EntryOk(sizes: seq<int>, i: int, e: PackSolution, path: seq<int>) {
    && (e.isValid <==> Representable(sizes, i))
    && (!e.isValid ==> e == NoSolution)
    && (e.isValid ==>
          && PackList(sizes, path) && Sum(path) == i
          && e.packs == Tally(path) && e.totalItems == i && e.totalPacks == |path|
          && FewestPacks(sizes, i, |path|))
  }

  /** Size index j offers a candidate for entry i: one more pack of sizes[j] on top
      of the valid entry for i - sizes[j]. */
  ghost predicate Candidate(sizes: seq<int>, t: seq<PackSolution>, i: int, j: int) {
    0 <= j < |sizes| && 0 < sizes[j] <= i && i - sizes[j] < |t| && t[i - sizes[j]].isValid
  }

  /** The candidate built from prev by adding one pack of size s (a fresh copy of prev's
      map with `packs[s]++`). */
  function Extend(prev: PackSolution, s: int, items: int): PackSolution {
    PackSolution(Inc(prev.packs, s), items, prev.totalPacks + 1, true)
  }

  /** A valid entry i > 0 was built from the candidate of size index choices[i], and every
      candidate of a smaller index (a larger size, when sizes are sorted descending) needs
      strictly more packs: on a tie the first candidate found is kept. */
  ghost predicate ChoiceOk(sizes: seq<int>, t: seq<PackSolution>, paths: seq<seq<int>>, choices: seq<int>, i: int) {
    && 0 < i < |t| && |paths| == |t| && |choices| == |t|
    && (t[i].isValid ==>
          var c := choices[i];
          && Candidate(sizes, t, i, c)
          && t[i] == Extend(t[i - sizes[c]], sizes[c], i)
          && paths[i] == paths[i - sizes[c]] + [sizes[c]]
          && forall j :: 0 <= j < c && Candidate(sizes, t, i, j) ==> t[i - sizes[j]].totalPacks + 1 > t[i].totalPacks)
  }

  /** The filled table t (dp[0..|t|-1]) with its ghost witnesses. */
  ghost predicate TableOk(sizes: seq<int>, t: seq<PackSolution>, paths: seq<seq<int>>, choices: seq<int>) {
    && |t| >= 1 && |paths| == |t| && |choices| == |t|
    && t[0] == PackSolution(map[], 0, 0, true) && paths[0] == []
    && (forall i :: 0 <= i < |t| ==> EntryOk(sizes, i, t[i], paths[i]))
    && (forall i :: 0 < i < |t| ==> ChoiceOk(sizes, t, paths, choices, i))
  }

  /** State of the scan over the sizes for entry `items`, after the first j sizes. */
  ghost predicate Progress(sizes: seq<int>, prefix: seq<PackSolution>, paths: seq<seq<int>>, items: int,
                           cur: PackSolution, path: seq<int>, choice: int, j: int) {
    && items >= 1 && |prefix| == items && |paths| == items
    && (!cur.isValid ==> cur == NoSolution)
    && (cur.isValid ==>
          && 0 <= choice < j
          && Candidate(sizes, prefix, items, choice)
          && cur == Extend(prefix[items - sizes[choice]], sizes[choice], items)
          && path == paths[items - sizes[choice]] + [sizes[choice]]
          && forall j' :: 0 <= j' < choice && Candidate(sizes, prefix, items, j') ==>
               prefix[items - sizes[j']].totalPacks + 1 > cur.totalPacks)
    && (forall j' :: 0 <= j' < j && Candidate(sizes, prefix, items, j') ==>
          cur.isValid && cur.totalPacks <= prefix[items - sizes[j']].totalPacks + 1)
  }

  /** Fills dp[0..maxItems] as lines 97-132 of pack.go do. */
  method FillTable(sizes: seq<int>, maxItems: int) returns (dp: array<PackSolution>, ghost paths: seq<seq<int>>, ghost choices: seq<int>)
    requires AllPositive(sizes) && maxItems >= 0
    ensures dp.Length == maxItems + 1
    ensures TableOk(sizes, dp[..], paths, choices)
  {
    dp := new PackSolution[maxItems + 1](_ => NoSolution);
    dp[0] := PackSolution(map[], 0, 0, true);
    paths, choices := [[]], [0];
    EntryZero(sizes);
    var items := 1;
    while items <= maxItems
      invariant 1 <= items <= maxItems + 1
      invariant TableOk(sizes, dp[..items], paths, choices)
    {
      ghost var prefix := dp[..items];
      ghost var path, choice := FillEntry(sizes, dp, items, paths);
      assert dp[..items + 1] == prefix + [dp[items]];
      CloseEntry(sizes, prefix, paths, choices, items, dp[items], path, choice);
      paths, choices := paths + [path], choices + [choice];
      items := items + 1;
    }
    assert dp[..] == dp[..items];
  }

  /** One pass of the inner loop (pack.go:109-131): entry `items` from the entries below it.
      Only dp[items] changes. */
  method FillEntry(sizes: seq<int>, dp: array<PackSolution>, items: int, ghost paths: seq<seq<int>>)
    returns (ghost path: seq<int>, ghost choice: int)
    requires AllPositive(sizes) && 1 <= items < dp.Length && |paths| == items
    modifies dp
    ensures forall k :: 0 <= k < dp.Length && k != items ==> dp[k] == old(dp[k])
    ensures Progress(sizes, old(dp[..items]), paths, items, dp[items], path, choice, |sizes|)
  {
    ghost var prefix := dp[..items];
    dp[items] := NoSolution;
    path, choice := [], 0;
    for j := 0 to |sizes|
      invariant forall k :: 0 <= k < dp.Length && k != items ==> dp[k] == old(dp[k])
      invariant dp[..items] == prefix
      invariant Progress(sizes, prefix, paths, items, dp[items], path, choice, j)
    {
      var packSize := sizes[j];
      if packSize <= items && dp[items - packSize].isValid {
        assert dp[items - packSize] == prefix[items - packSize];
        var packs := Inc(dp[items - packSize].packs, packSize);
        var newSolution := PackSolution(packs, items, dp[items - packSize].totalPacks + 1, true);
        if !dp[items].isValid || IsBetterSolution(newSolution, dp[items]) {
          ProgressTake(sizes, prefix, paths, items, dp[items], path, choice, j);
          dp[items] := newSolution;
          path := paths[items - packSize] + [packSize];
          choice := j;
        } else {
          ProgressKeep(sizes, prefix, paths, items, dp[items], path, choice, j);
        }
      } else {
        assert packSize <= items ==> dp[items - packSize] == prefix[items - packSize];
        ProgressSkip(sizes, prefix, paths, items, dp[items], path, choice, j);
      }
    }
  }

  /** calculatePacksDp: the table, then the first valid entry at or above the order. */
  method CalculatePacksDp(sizes: seq<int>, order: int) returns (packs: map<int, int>, valid: bool)
    requires |sizes| > 0 && AllPositive(sizes) && order > 0
    ensures valid
    ensures exists ps :: Optimal(sizes, order, ps) && packs == Tally(ps)
  {
    var maxItems := order + sizes[|sizes| - 1];
    var dp: array<PackSolution>;
    ghost var paths: seq<seq<int>>, choices: seq<int>;
    dp, paths, choices := FillTable(sizes, maxItems);
    ghost var w := WindowEntry(sizes, dp[..], paths, choices, order);

    var bestSolution := NoSolution;
    ghost var at := order;
    var items := order;
    while items <= maxItems
      invariant order <= items <= maxItems + 1
      invariant !bestSolution.isValid
      invariant forall k :: order <= k < items ==> !dp[k].isValid
    {
      var entry := dp[items];
      if entry.isValid {
        if !bestSolution.isValid || IsBetterSolution(entry, bestSolution) {
          bestSolution := entry;
          at := items;
          break;
        }
      }
      items := items + 1;
    }
    SelectionOptimal(sizes, dp[..], paths, choices, order, at);
    packs, valid := bestSolution.packs, bestSolution.isValid;
  }

  // ----- lemmas behind the table -----

  /** Size index j offers nothing: the scan state carries over. */
  lemma ProgressSkip(sizes: seq<int>, prefix: seq<PackSolution>, paths: seq<seq<int>>, items: int,
                     cur: PackSolution, path: seq<int>, choice: int, j: int)
    requires Progress(sizes, prefix, paths, items, cur, path, choice, j)
    requires 0 <= j < |sizes| && !Candidate(sizes, prefix, items, j)
    ensures Progress(sizes, prefix, paths, items, cur, path, choice, j + 1)
  {
  }

  /** The candidate of size index j is no better than the entry so far: it is kept. */
  lemma ProgressKeep(sizes: seq<int>, prefix: seq<PackSolution>, paths: seq<seq<int>>, items: int,
                     cur: PackSolution, path: seq<int>, choice: int, j: int)
    requires Progress(sizes, prefix, paths, items, cur, path, choice, j)
    requires 0 <= j < |sizes| && Candidate(sizes, prefix, items, j)
    requires cur.isValid && cur.totalPacks <= prefix[items - sizes[j]].totalPacks + 1
    ensures Progress(sizes, prefix, paths, items, cur, path, choice, j + 1)
  {
  }

  /** The candidate of size index j replaces the entry so far, which was empty or
      needed strictly more packs. */
  lemma ProgressTake(sizes: seq<int>, prefix: seq<PackSolution>, paths: seq<seq<int>>, items: int,
                     cur: PackSolution, path: seq<int>, choice: int, j: int)
    requires Progress(sizes, prefix, paths, items, cur, path, choice, j)
    requires 0 <= j < |sizes| && Candidate(sizes, prefix, items, j)
    requires !cur.isValid || prefix[items - sizes[j]].totalPacks + 1 < cur.totalPacks
    ensures var s := sizes[j];
            Progress(sizes, prefix, paths, items, Extend(prefix[items - s], s, items), paths[items - s] + [s], j, j + 1)
  {
  }

  lemma EntryZero(sizes: seq<int>)
    requires AllPositive(sizes)
    ensures EntryOk(sizes, 0, PackSolution(map[], 0, 0, true), [])
  {
    assert PackList(sizes, []) && Sum([]) == 0;
    forall qs | PackList(sizes, qs) && Sum(qs) == 0 ensures 0 <= |qs| {
    }
  }

  /** Any pack list for `items` items ends with some size whose candidate is available
      and no worse than the list itself. */
  lemma LastPack(sizes: seq<int>, prefix: seq<PackSolution>, paths: seq<seq<int>>, choices: seq<int>,
                 items: int, qs: seq<int>)
    requires AllPositive(sizes) && TableOk(sizes, prefix, paths, choices)
    requires items >= 1 && |prefix| == items
    requires PackList(sizes, qs) && Sum(qs) == items
    ensures exists j :: Candidate(sizes, prefix, items, j) && prefix[items - sizes[j]].totalPacks + 1 <= |qs|
  {
    assert qs != [];
    var init, last := qs[..|qs| - 1], qs[|qs| - 1];
    assert PackList(sizes, init) by {
      forall k | 0 <= k < |init| ensures init[k] in sizes { assert init[k] == qs[k]; }
    }
    SumBounds(sizes, init);
    var j :| 0 <= j < |sizes| && sizes[j] == last;
    var rest := items - last;
    assert Sum(init) == rest;
    assert 0 <= rest < items;
    assert Representable(sizes, rest);
    assert EntryOk(sizes, rest, prefix[rest], paths[rest]);
    assert Candidate(sizes, prefix, items, j);
  }

  /** The entry closed by the scan over the sizes keeps the table invariant. */
  lemma CloseEntry(sizes: seq<int>, prefix: seq<PackSolution>, paths: seq<seq<int>>, choices: seq<int>,
                   items: int, cur: PackSolution, path: seq<int>, choice: int)
    requires AllPositive(sizes) && TableOk(sizes, prefix, paths, choices)
    requires Progress(sizes, prefix, paths, items, cur, path, choice, |sizes|)
    ensures TableOk(sizes, prefix + [cur], paths + [path], choices + [choice])
  {
    NewEntryOk(sizes, prefix, paths, choices, items, cur, path, choice);
    var t, p, c := prefix + [cur], paths + [path], choices + [choice];
    forall i | 0 <= i < |t| ensures EntryOk(sizes, i, t[i], p[i]) {
      if i < items {
        assert t[i] == prefix[i] && p[i] == paths[i];
      }
    }
    forall i | 0 < i < |t| ensures ChoiceOk(sizes, t, p, c, i) {
      if i < items {
        ChoiceExtend(sizes, prefix, paths, choices, cur, path, choice, i);
      } else {
        ChoiceNew(sizes, prefix, paths, choices, items, cur, path, choice);
      }
    }
  }

  /** The choice recorded for an entry already in the table still holds when it grows. */
  lemma ChoiceExtend(sizes: seq<int>, prefix: seq<PackSolution>, paths: seq<seq<int>>, choices: seq<int>,
                     cur: PackSolution, path: seq<int>, choice: int, i: int)
    requires 0 < i < |prefix| && ChoiceOk(sizes, prefix, paths, choices, i)
    ensures ChoiceOk(sizes, prefix + [cur], paths + [path], choices + [choice], i)
  {
    var t, p, c := prefix + [cur], paths + [path], choices + [choice];
    CandidateExtend(sizes, prefix, cur, i);
    assert t[i] == prefix[i] && p[i] == paths[i] && c[i] == choices[i];
    forall k | 0 <= k < i ensures t[k] == prefix[k] && p[k] == paths[k] {
    }
  }

  /** The choice recorded for the entry just closed. */
  lemma ChoiceNew(sizes: seq<int>, prefix: seq<PackSolution>, paths: seq<seq<int>>, choices: seq<int>,
                  items: int, cur: PackSolution, path: seq<int>, choice: int)
    requires |choices| == |prefix|
    requires Progress(sizes, prefix, paths, items, cur, path, choice, |sizes|)
    ensures ChoiceOk(sizes, prefix + [cur], paths + [path], choices + [choice], items)
  {
    var t, p, c := prefix + [cur], paths + [path], choices + [choice];
    CandidateExtend(sizes, prefix, cur, items);
    forall k | 0 <= k < items ensures t[k] == prefix[k] && p[k] == paths[k] {
    }
  }

  /** Candidates of entries already in the table do not change when the table grows. */
  lemma CandidateExtend(sizes: seq<int>, prefix: seq<PackSolution>, cur: PackSolution, i: int)
    requires 0 <= i <= |prefix|
    ensures forall j :: Candidate(sizes, prefix + [cur], i, j) <==> Candidate(sizes, prefix, i, j)
  {
    forall j ensures Candidate(sizes, prefix + [cur], i, j) <==> Candidate(sizes, prefix, i, j) {
      if 0 <= j < |sizes| && 0 < sizes[j] <= i {
        assert (prefix + [cur])[i - sizes[j]] == prefix[i - sizes[j]];
      }
    }
  }

  lemma NewEntryOk(sizes: seq<int>, prefix: seq<PackSolution>, paths: seq<seq<int>>, choices: seq<int>,
                   items: int, cur: PackSolution, path: seq<int>, choice: int)
    requires AllPositive(sizes) && TableOk(sizes, prefix, paths, choices)
    requires Progress(sizes, prefix, paths, items, cur, path, choice, |sizes|)
    ensures EntryOk(sizes, items, cur, path)
  {
    if cur.isValid {
      var s := sizes[choice];
      var before := paths[items - s];
      assert EntryOk(sizes, items - s, prefix[items - s], before);
      SumAppend(before, s);
      TallyAppend(before, s);
      assert PackList(sizes, path) by {
        forall k | 0 <= k < |path| ensures path[k] in sizes {
          if k < |before| { assert path[k] == before[k]; }
        }
      }
      assert Representable(sizes, items);
      forall qs | PackList(sizes, qs) && Sum(qs) == items ensures |path| <= |qs| {
        LastPack(sizes, prefix, paths, choices, items, qs);
      }
    } else {
      if Representable(sizes, items) {
        var qs :| PackList(sizes, qs) && Sum(qs) == items;
        LastPack(sizes, prefix, paths, choices, items, qs);
      }
    }
  }

  /** Some entry between the order and the end of the table is valid: a multiple of the
      last size lies in that window. */
  lemma WindowEntry(sizes: seq<int>, t: seq<PackSolution>, paths: seq<seq<int>>, choices: seq<int>, order: int)
    returns (w: int)
    requires |sizes| > 0 && AllPositive(sizes) && order > 0
    requires TableOk(sizes, t, paths, choices) && |t| == order + sizes[|sizes| - 1] + 1
    ensures order <= w < |t| - 1 && t[w].isValid
  {
    var m := sizes[|sizes| - 1];
    MultipleInWindow(sizes, m, order);
    w :| order <= w < order + m && Representable(sizes, w);
    assert EntryOk(sizes, w, t[w], paths[w]);
  }

  /** The first valid entry at or above the order is an optimal answer. */
  lemma SelectionOptimal(sizes: seq<int>, t: seq<PackSolution>, paths: seq<seq<int>>, choices: seq<int>,
                         order: int, at: int)
    requires AllPositive(sizes) && TableOk(sizes, t, paths, choices)
    requires 0 < order <= at < |t| && t[at].isValid
    requires forall k :: order <= k < at ==> !t[k].isValid
    ensures Optimal(sizes, order, paths[at]) && t[at].packs == Tally(paths[at])
  {
    var ps := paths[at];
    assert EntryOk(sizes, at, t[at], ps);
    forall k | order <= k < at ensures !Representable(sizes, k) {
      assert EntryOk(sizes, k, t[k], paths[k]);
    }
    forall qs | PackList(sizes, qs) && Sum(qs) >= order ensures Sum(ps) <= Sum(qs) {
      assert Representable(sizes, Sum(qs));
    }
  }

  /** Every valid entry of a filled table is a proper size-to-count map: Σ size × count is
      its item count, Σ count its pack count, every key is an available size and every
      count is at least one. */
  lemma ValidEntryTotals(sizes: seq<int>, t: seq<PackSolution>, paths: seq<seq<int>>, choices: seq<int>, i: int)
    requires TableOk(sizes, t, paths, choices) && 0 <= i < |t| && t[i].isValid
    ensures TotalItems(t[i].packs) == t[i].totalItems == i
    ensures TotalPacks(t[i].packs) == t[i].totalPacks
    ensures forall k :: k in t[i].packs ==> k in sizes && t[i].packs[k] >= 1
  {
    assert EntryOk(sizes, i, t[i], paths[i]);
    TallyTotals(paths[i]);
    TallyWellFormed(sizes, paths[i]);
  }
}
