/** The greedy fallback calculatePacksGreedy, in its three phases: a naive fill from
    the first size on, one extra pack when the fill falls short, and one merge of the
    smallest packs into the next larger size followed by the removal of the merged sizes.
    Every phase is a method with the loop of the source, proved equal to a recursive
    reference function; the properties of the phases are lemmas about those functions. */
module Greedy {
  import opened Combination
  import opened Sorting

  /** Go's `/` on int: the quotient truncated toward zero. */
  function GoDiv(a: int, b: int): (q: int)
    requires b != 0
    ensures a >= 0 && b > 0 ==> q == a / b
  {
    var n := (if a < 0 then -a else a) / (if b < 0 then -b else b);
    if (a < 0) != (b < 0) then -n else n
  }

  /** The entries of m whose size is above d. */
  function Above(m: map<int, int>, d: int): (r: map<int, int>)
    ensures forall k {:trigger k in r} :: k in r <==> k in m && k > d
    ensures forall k :: k in r ==> r[k] == m[k]
  {
    map k | k in m && k > d :: m[k]
  }

  /** The entries of m whose size is d or below. */
  function Below(m: map<int, int>, d: int): (r: map<int, int>)
    ensures forall k {:trigger k in r} :: k in r <==> k in m && k <= d
    ensures forall k :: k in r ==> r[k] == m[k]
  {
    map k | k in m && k <= d :: m[k]
  }

  /** No size is listed twice and the sizes fall from first to last. */
  predicate StrictlyDescending(s: seq<int>) {
    forall i, j :: 0 <= i < j < |s| ==> s[i] > s[j]
  }

  // ----- phase 1: naive fill -----

  /** The counts and the item sum after the naive fill. */
  datatype Fill = Fill(counts: map<int, int>, sum: int)

  /** The naive fill continued from size index i with counts res and item sum sum: a size
      that exceeds what is still missing is skipped, otherwise it gets as many packs as
      fit into what is missing; the fill stops at the last size or once the order is met. */
  function NaiveFillFrom(sizes: seq<int>, order: int, i: nat, res: map<int, int>, sum: int): Fill
    requires AllPositive(sizes)
    decreases |sizes| - i
  {
    if sum >= order || i >= |sizes| then Fill(res, sum)
    else if sizes[i] > order - sum then NaiveFillFrom(sizes, order, i + 1, res, sum)
    else
      var n := GoDiv(order - sum, sizes[i]);
      NaiveFillFrom(sizes, order, i + 1, res[sizes[i] := n], sum + n * sizes[i])
  }

  function NaiveFillResult(sizes: seq<int>, order: int): Fill
    requires AllPositive(sizes)
  {
    NaiveFillFrom(sizes, order, 0, map[], 0)
  }

  // ----- phase 2: one pack for the remainder -----

  /** The backward scan over sizes[0..n-1] for a size above rest: the last index whose size
      exceeds rest, or -1 when there is none. */
  function PatchIndex(sizes: seq<int>, rest: int, n: nat): (i: int)
    requires n <= |sizes|
    ensures -1 <= i < n
    ensures i >= 0 ==> sizes[i] > rest
    ensures forall j :: i < j < n ==> sizes[j] <= rest
  {
    if n == 0 then -1
    else if sizes[n - 1] > rest then n - 1
    else PatchIndex(sizes, rest, n - 1)
  }

  /** One more pack of the size found by the backward scan, if any. */
  function Patch(sizes: seq<int>, res: map<int, int>, rest: int): map<int, int> {
    var i := PatchIndex(sizes, rest, |sizes|);
    if i >= 0 then Inc(res, sizes[i]) else res
  }

  // ----- phase 3: merge -----

  /** The decision of the merge scan: no merge, or a merge at size index `at`, where the
      packs of sizes[at..] collected so far make exactly nextQty packs of sizes[at - 1]. */
  datatype MergeStep = NoMerge | MergeAt(at: int, nextQty: int)

  /** The merge scan from size index n - 1 down to 0, with qty packs holding sum items
      already collected from the higher indices. */
  function MergeScan(sizes: seq<int>, res: map<int, int>, n: nat, qty: int, sum: int): (r: MergeStep)
    requires n <= |sizes| && AllPositive(sizes)
    ensures r.MergeAt? ==> 0 < r.at < n && sizes[r.at] in res
  {
    if n == 0 then NoMerge
    else
      var i := n - 1;
      if sizes[i] !in res then MergeScan(sizes, res, n - 1, qty, sum)
      else
        var q := qty + res[sizes[i]];
        var s := sum + sizes[i] * res[sizes[i]];
        if i == 0 then NoMerge
        else
          var nq := GoDiv(s, sizes[i - 1]);
          if nq * sizes[i - 1] == s && nq < q then MergeAt(i, nq)
          else MergeScan(sizes, res, n - 1, q, s)
  }

  /** The merge as written: the count of the next larger size is set to the merged quantity. */
  function ApplyMerge(sizes: seq<int>, res: map<int, int>, step: MergeStep): map<int, int>
    requires step.MergeAt? ==> 0 < step.at < |sizes|
  {
    match step
    case NoMerge => res
    case MergeAt(at, nq) => res[sizes[at - 1] := nq]
  }

  /** The merge with the packs already held of the next larger size kept. */
  function ApplyMergeFixed(sizes: seq<int>, res: map<int, int>, step: MergeStep): map<int, int>
    requires step.MergeAt? ==> 0 < step.at < |sizes|
  {
    match step
    case NoMerge => res
    case MergeAt(at, nq) =>
      var next := sizes[at - 1];
      res[next := (if next in res then res[next] else 0) + nq]
  }

  /** The size whose entries and all smaller ones are dropped after a merge (0: none). */
  function DelKey(sizes: seq<int>, step: MergeStep): int
    requires step.MergeAt? ==> 0 <= step.at < |sizes|
  {
    if step.MergeAt? then sizes[step.at] else 0
  }

  /** The counts after the naive fill and, when it falls short, the extra pack. */
  function FilledAndPatched(sizes: seq<int>, order: int): map<int, int>
    requires AllPositive(sizes)
  {
    var f := NaiveFillResult(sizes, order);
    if f.sum < order then Patch(sizes, f.counts, order - f.sum) else f.counts
  }

  /** The whole greedy fallback, as written. */
  function Greedy(sizes: seq<int>, order: int): map<int, int>
    requires AllPositive(sizes)
  {
    var patched := FilledAndPatched(sizes, order);
    var step := MergeScan(sizes, patched, |sizes|, 0, 0);
    var merged := ApplyMerge(sizes, patched, step);
    var delKey := DelKey(sizes, step);
    if delKey > 0 then Above(merged, delKey) else merged
  }

  /** The greedy fallback with the corrected merge. */
  function GreedyFixed(sizes: seq<int>, order: int): map<int, int>
    requires AllPositive(sizes)
  {
    var patched := FilledAndPatched(sizes, order);
    var step := MergeScan(sizes, patched, |sizes|, 0, 0);
    var merged := ApplyMergeFixed(sizes, patched, step);
    var delKey := DelKey(sizes, step);
    if delKey > 0 then Above(merged, delKey) else merged
  }

  // ----- the methods -----

  /** The naive packing loop. */
  method NaiveFill(sizes: seq<int>, order: int) returns (res: map<int, int>, sum: int)
    requires AllPositive(sizes)
    ensures Fill(res, sum) == NaiveFillResult(sizes, order)
    ensures order > 0 ==>
      && 0 <= sum <= order && sum == TotalItems(res)
      && (forall k :: k in res ==> k in sizes && res[k] >= 1)
      && (forall j :: 0 <= j < |sizes| ==> sizes[j] > order - sum)
  {
    res := map[];
    var sizeIdx := 0;
    sum := 0;
    while sum < order && sizeIdx < |sizes|
      invariant 0 <= sizeIdx <= |sizes|
      invariant NaiveFillFrom(sizes, order, sizeIdx, res, sum) == NaiveFillResult(sizes, order)
      decreases |sizes| - sizeIdx
    {
      var currSize := sizes[sizeIdx];
      var rest := order - sum;
      if currSize > rest {
        sizeIdx := sizeIdx + 1;
      } else {
        var n := GoDiv(rest, currSize);
        res := res[currSize := n];
        sum := sum + n * currSize;
        sizeIdx := sizeIdx + 1;
      }
    }
    if order > 0 {
      NaiveFillShape(sizes, order);
    }
  }

  /** The loop that adds the last pack when the order is not met yet. */
  method PatchRemainder(sizes: seq<int>, res: map<int, int>, rest: int) returns (out: map<int, int>)
    ensures out == Patch(sizes, res, rest)
    ensures Descending(sizes) && (exists j :: 0 <= j < |sizes| && sizes[j] > rest) ==>
      exists s :: s in sizes && s > rest && (forall t :: t in sizes && t > rest ==> s <= t) && out == Inc(res, s)
    ensures (forall j :: 0 <= j < |sizes| ==> sizes[j] <= rest) ==> out == res
  {
    if Descending(sizes) {
      PatchSpec(sizes, res, rest);
    }
    out := res;
    var i := |sizes| - 1;
    while i >= 0
      invariant -1 <= i < |sizes|
      invariant PatchIndex(sizes, rest, |sizes|) == PatchIndex(sizes, rest, i + 1)
      invariant out == res
    {
      if sizes[i] > rest {
        if sizes[i] in out {
          var p := out[sizes[i]];
          out := out[sizes[i] := p + 1];
        } else {
          out := out[sizes[i] := 1];
        }
        return;
      }
      i := i - 1;
    }
  }

  /** The merge scan: the backward loop that looks for the first index whose collected
      packs fit exactly into fewer packs of the next larger size. */
  method FindMerge(sizes: seq<int>, res: map<int, int>) returns (step: MergeStep)
    requires AllPositive(sizes)
    ensures step == MergeScan(sizes, res, |sizes|, 0, 0)
    ensures step.MergeAt? ==>
      && 0 < step.at < |sizes| && sizes[step.at] in res
      && step.nextQty * sizes[step.at - 1] == VisitedItems(sizes, res, step.at, |sizes|)
      && step.nextQty < VisitedPacks(sizes, res, step.at, |sizes|)
  {
    MergeScanFirst(sizes, res, |sizes|, 0, 0);
    var qty, sum := 0, 0;
    step := NoMerge;
    var i := |sizes| - 1;
    while i >= 0
      invariant -1 <= i < |sizes|
      invariant MergeScan(sizes, res, |sizes|, 0, 0) == MergeScan(sizes, res, i + 1, qty, sum)
      invariant step == NoMerge
    {
      if sizes[i] in res {
        var pack := res[sizes[i]];
        qty := qty + pack;
        sum := sum + sizes[i] * pack;
        if i - 1 < 0 {
          return;
        }
        var nextSize := sizes[i - 1];
        var nextQty := GoDiv(sum, nextSize);
        var nextSum := nextQty * nextSize;
        if nextSum == sum && nextQty < qty {
          step := MergeAt(i, nextQty);
          return;
        }
      }
      i := i - 1;
    }
  }

  /** The loop that deletes every key up to delKey. */
  method DeleteUpTo(res: map<int, int>, delKey: int) returns (out: map<int, int>)
    ensures out == Above(res, delKey)
  {
    out := res;
    var keys := res.Keys;
    while exists key :: key in keys
      invariant keys <= res.Keys
      invariant out == map k | k in res && (k in keys || k > delKey) :: res[k]
      decreases keys
    {
      var key :| key in keys;
      if key <= delKey {
        out := out - {key};
      }
      keys := keys - {key};
    }
  }

  /** calculatePacksGreedy as written. */
  method CalculatePacksGreedy(sizes: seq<int>, order: int) returns (res: map<int, int>)
    requires AllPositive(sizes)
    ensures res == Greedy(sizes, order)
    ensures |sizes| > 0 && order > 0 ==> forall k :: k in res ==> k in sizes && res[k] >= 1
  {
    if |sizes| > 0 && order > 0 {
      GreedyWellFormed(sizes, order);
    }
    var sum;
    res, sum := NaiveFill(sizes, order);
    if sum < order {
      res := PatchRemainder(sizes, res, order - sum);
    }
    var step := FindMerge(sizes, res);
    var delKey := 0;
    if step.MergeAt? {
      delKey := sizes[step.at];
      res := res[sizes[step.at - 1] := step.nextQty];
    }
    if delKey > 0 {
      res := DeleteUpTo(res, delKey);
    }
  }

  /** calculatePacksGreedy with the corrected merge: it meets the order whenever the sizes
      are positive, distinct and sorted descending (see GreedyFixedMeetsOrder). */
  method CalculatePacksGreedyFixed(sizes: seq<int>, order: int) returns (res: map<int, int>)
    requires AllPositive(sizes)
    ensures res == GreedyFixed(sizes, order)
    ensures StrictlyDescending(sizes) && |sizes| > 0 && order > 0 ==> TotalItems(res) >= order
  {
    if StrictlyDescending(sizes) && |sizes| > 0 && order > 0 {
      GreedyFixedMeetsOrder(sizes, order);
    }
    var sum;
    res, sum := NaiveFill(sizes, order);
    if sum < order {
      res := PatchRemainder(sizes, res, order - sum);
    }
    var step := FindMerge(sizes, res);
    var delKey := 0;
    if step.MergeAt? {
      delKey := sizes[step.at];
      var next := sizes[step.at - 1];
      var held := if next in res then res[next] else 0;
      res := res[next := held + step.nextQty];
    }
    if delKey > 0 {
      res := DeleteUpTo(res, delKey);
    }
  }

  // ----- properties of the naive fill -----

  /** What holds after each step of the naive fill: the sum is what the counts ship and
      never passes the order, every size scanned so far exceeds what is still missing, and
      each key got as many packs as fitted into what the larger keys left missing. */
  ghost predicate FillInv(sizes: seq<int>, order: int, i: nat, res: map<int, int>, sum: int) {
    && i <= |sizes|
    && 0 <= sum <= order
    && sum == TotalItems(res)
    && (forall j :: 0 <= j < i ==> sizes[j] > order - sum)
    && (forall k :: k in res ==> k in sizes && res[k] >= 1 && k > order - sum)
    && Quotients(order, res)
  }

  /** Each key's count is the number of its packs that fit into what the larger keys left
      of the order. */
  ghost predicate Quotients(order: int, res: map<int, int>) {
    forall k {:trigger Above(res, k)} :: k in res ==> k > 0 && res[k] == Fit(order - TotalItems(Above(res, k)), k)
  }

  /** Whole packs of size k that fit into room items. */
  function Fit(room: int, k: int): int
    requires k > 0
  {
    room / k
  }

  /** Whole packs of size s that fit into rest, and what they leave. */
  lemma DivFacts(rest: int, s: int)
    requires 0 < s <= rest
    ensures GoDiv(rest, s) >= 1
    ensures 0 <= rest - GoDiv(rest, s) * s < s
  {
    var n := rest / s;
    assert rest == n * s + rest % s;
  }

  /** Adding a key below every key present: the quotients of the old keys do not change
      and the new key's one is computed from everything already shipped. */
  lemma QuotientsExtend(order: int, res: map<int, int>, s: int, n: int)
    requires s > 0 && forall k :: k in res ==> k > s
    requires Quotients(order, res)
    requires n == Fit(order - TotalItems(res), s)
    ensures Quotients(order, res[s := n])
  {
    var r := res[s := n];
    forall k {:trigger Above(r, k)} | k in r ensures k > 0 && r[k] == Fit(order - TotalItems(Above(r, k)), k) {
      AboveInsert(res, s, n, k);
      if k != s {
        assert r[k] == res[k];
        assert res[k] == Fit(order - TotalItems(Above(res, k)), k);
      }
    }
  }

  lemma AboveInsert(res: map<int, int>, s: int, n: int, k: int)
    requires forall j :: j in res ==> j > s
    requires k == s || k in res
    ensures k == s ==> Above(res[s := n], k) == res
    ensures k != s ==> Above(res[s := n], k) == Above(res, k)
  {
  }

  lemma NaiveFillStep(sizes: seq<int>, order: int, i: nat, res: map<int, int>, sum: int)
    requires AllPositive(sizes) && FillInv(sizes, order, i, res, sum)
    requires sum < order && i < |sizes| && sizes[i] <= order - sum
    ensures var n := GoDiv(order - sum, sizes[i]);
      FillInv(sizes, order, i + 1, res[sizes[i] := n], sum + n * sizes[i])
  {
    var s, rest := sizes[i], order - sum;
    var n := GoDiv(rest, s);
    DivFacts(rest, s);
    var sum' := sum + n * s;
    assert 0 <= order - sum' < s;
    assert s !in res;
    assert res - {s} == res;
    TotalItemsUpdate(res, s, n);
    QuotientsExtend(order, res, s, n);
  }

  lemma {:induction false} NaiveFillInv(sizes: seq<int>, order: int, i: nat, res: map<int, int>, sum: int)
    requires AllPositive(sizes) && FillInv(sizes, order, i, res, sum)
    ensures var f := NaiveFillFrom(sizes, order, i, res, sum);
      FillInv(sizes, order, |sizes|, f.counts, f.sum)
    decreases |sizes| - i
  {
    if sum >= order || i >= |sizes| {
      forall j | 0 <= j < |sizes| ensures sizes[j] > order - sum {
        if i < |sizes| { assert sum == order && sizes[j] > 0; }
      }
    } else if sizes[i] > order - sum {
      NaiveFillInv(sizes, order, i + 1, res, sum);
    } else {
      var n := GoDiv(order - sum, sizes[i]);
      NaiveFillStep(sizes, order, i, res, sum);
      NaiveFillInv(sizes, order, i + 1, res[sizes[i] := n], sum + n * sizes[i]);
    }
  }

  /** The naive fill of a positive order: it ships the sum it reports and at most the order;
      every count is the number of whole packs of its size that fit into what the larger
      sizes left missing; and what is still missing is below every size, so the order is met
      exactly or no single size could have been added without passing it. */
  lemma NaiveFillShape(sizes: seq<int>, order: int)
    requires AllPositive(sizes) && order > 0
    ensures var f := NaiveFillResult(sizes, order);
      && 0 <= f.sum <= order
      && f.sum == TotalItems(f.counts)
      && (forall k :: k in f.counts ==> k in sizes && f.counts[k] >= 1)
      && Quotients(order, f.counts)
      && (forall j :: 0 <= j < |sizes| ==> sizes[j] > order - f.sum)
  {
    assert TotalItems(map[]) == 0;
    assert FillInv(sizes, order, 0, map[], 0);
    NaiveFillInv(sizes, order, 0, map[], 0);
  }

  // ----- properties of the extra pack -----

  /** The extra pack is one pack of the smallest size above what is missing, when the sizes
      are sorted descending; without such a size nothing is added. */
  lemma PatchSpec(sizes: seq<int>, res: map<int, int>, rest: int)
    requires Descending(sizes)
    ensures (exists j :: 0 <= j < |sizes| && sizes[j] > rest) ==>
      exists s :: && s in sizes && s > rest
                  && (forall t :: t in sizes && t > rest ==> s <= t)
                  && Patch(sizes, res, rest) == Inc(res, s)
                  && TotalItems(Patch(sizes, res, rest)) == TotalItems(res) + s
                  && TotalPacks(Patch(sizes, res, rest)) == TotalPacks(res) + 1
    ensures (forall j :: 0 <= j < |sizes| ==> sizes[j] <= rest) ==> Patch(sizes, res, rest) == res
  {
    var i := PatchIndex(sizes, rest, |sizes|);
    if j :| 0 <= j < |sizes| && sizes[j] > rest {
      assert i >= j;
      var s := sizes[i];
      forall t | t in sizes && t > rest ensures s <= t {
        var k :| 0 <= k < |sizes| && sizes[k] == t;
        assert k <= i;
      }
      TotalItemsInc(res, s);
      TotalPacksInc(res, s);
    }
  }

  /** After the naive fill, whatever still misses is below every size, so the backward
      scan stops at the last index: the counts before the merge ship at least the order. */
  lemma FilledAndPatchedMeetsOrder(sizes: seq<int>, order: int)
    requires AllPositive(sizes) && |sizes| > 0 && order > 0
    ensures var p := FilledAndPatched(sizes, order);
      && TotalItems(p) >= order
      && forall k :: k in p ==> k in sizes && p[k] >= 1
  {
    NaiveFillShape(sizes, order);
    var f := NaiveFillResult(sizes, order);
    if f.sum < order {
      var rest := order - f.sum;
      var last := sizes[|sizes| - 1];
      assert PatchIndex(sizes, rest, |sizes|) == |sizes| - 1;
      TotalItemsInc(f.counts, last);
    }
  }

  // ----- properties of the merge -----

  /** Items and packs held by the sizes at indices lo..hi-1 (each index counted on its own,
      as the backward scan does). */
  function VisitedItems(sizes: seq<int>, res: map<int, int>, lo: nat, hi: nat): int
    requires lo <= hi <= |sizes|
    decreases hi
  {
    if hi == lo then 0
    else (if sizes[hi - 1] in res then sizes[hi - 1] * res[sizes[hi - 1]] else 0) + VisitedItems(sizes, res, lo, hi - 1)
  }

  function VisitedPacks(sizes: seq<int>, res: map<int, int>, lo: nat, hi: nat): int
    requires lo <= hi <= |sizes|
    decreases hi
  {
    if hi == lo then 0
    else (if sizes[hi - 1] in res then res[sizes[hi - 1]] else 0) + VisitedPacks(sizes, res, lo, hi - 1)
  }

  /** Index j of the backward scan, entered with qty packs holding sum items collected above
      index n - 1, triggers the merge: j holds a key and is not the first index, and the
      items of indices j..n-1 make a whole number of packs of sizes[j - 1], fewer than the
      packs they are in now. */
  predicate Qualifies(sizes: seq<int>, res: map<int, int>, j: nat, n: nat, qty: int, sum: int)
    requires j < n <= |sizes| && AllPositive(sizes)
  {
    && j > 0 && sizes[j] in res
    && var s := sum + VisitedItems(sizes, res, j, n);
       var nq := GoDiv(s, sizes[j - 1]);
       nq * sizes[j - 1] == s && nq < qty + VisitedPacks(sizes, res, j, n)
  }

  lemma QualifiesShift(sizes: seq<int>, res: map<int, int>, j: nat, n: nat, qty: int, sum: int)
    requires j < n - 1 && n <= |sizes| && AllPositive(sizes)
    ensures var top := sizes[n - 1];
      var q := qty + (if top in res then res[top] else 0);
      var s := sum + (if top in res then top * res[top] else 0);
      Qualifies(sizes, res, j, n, qty, sum) == Qualifies(sizes, res, j, n - 1, q, s)
  {
  }

  /** The merge scan makes at most one merge, at the highest index that qualifies, with the
      quantity that holds exactly the items collected from that index up; with no qualifying
      index there is no merge. */
  lemma {:induction false} MergeScanFirst(sizes: seq<int>, res: map<int, int>, n: nat, qty: int, sum: int)
    requires n <= |sizes| && AllPositive(sizes)
    ensures var r := MergeScan(sizes, res, n, qty, sum);
      && (r.MergeAt? ==>
            && Qualifies(sizes, res, r.at, n, qty, sum)
            && r.nextQty * sizes[r.at - 1] == sum + VisitedItems(sizes, res, r.at, n)
            && r.nextQty < qty + VisitedPacks(sizes, res, r.at, n)
            && forall j :: r.at < j < n ==> !Qualifies(sizes, res, j, n, qty, sum))
      && (r.NoMerge? ==> forall j :: 0 <= j < n ==> !Qualifies(sizes, res, j, n, qty, sum))
  {
    if n > 0 {
      var i := n - 1;
      var q := qty + (if sizes[i] in res then res[sizes[i]] else 0);
      var s := sum + (if sizes[i] in res then sizes[i] * res[sizes[i]] else 0);
      assert VisitedItems(sizes, res, i, n) == s - sum;
      assert VisitedPacks(sizes, res, i, n) == q - qty;
      if sizes[i] in res && i == 0 {
      } else if sizes[i] in res && GoDiv(s, sizes[i - 1]) * sizes[i - 1] == s && GoDiv(s, sizes[i - 1]) < q {
      } else {
        MergeScanFirst(sizes, res, n - 1, q, s);
        forall j | 0 <= j < n - 1 ensures Qualifies(sizes, res, j, n, qty, sum) == Qualifies(sizes, res, j, n - 1, q, s) {
          QualifiesShift(sizes, res, j, n, qty, sum);
        }
      }
    }
  }

  /** With positive counts, a key at index lo puts at least its own items into the collection. */
  lemma {:induction false} VisitedItemsLower(sizes: seq<int>, res: map<int, int>, lo: nat, hi: nat)
    requires lo < hi <= |sizes| && AllPositive(sizes) && sizes[lo] in res
    requires forall k :: k in res ==> res[k] >= 1
    ensures VisitedItems(sizes, res, lo, hi) >= sizes[lo]
    decreases hi
  {
    if hi - 1 > lo {
      VisitedItemsLower(sizes, res, lo, hi - 1);
      var t := sizes[hi - 1];
      if t in res {
        assert t * res[t] >= 0;
      }
    } else {
      assert sizes[lo] * res[sizes[lo]] >= sizes[lo];
    }
  }

  /** The answer of the greedy fallback names only available sizes, each with at least one pack. */
  lemma GreedyWellFormed(sizes: seq<int>, order: int)
    requires AllPositive(sizes) && |sizes| > 0 && order > 0
    ensures forall k :: k in Greedy(sizes, order) ==> k in sizes && Greedy(sizes, order)[k] >= 1
  {
    FilledAndPatchedMeetsOrder(sizes, order);
    var p := FilledAndPatched(sizes, order);
    var step := MergeScan(sizes, p, |sizes|, 0, 0);
    MergeScanFirst(sizes, p, |sizes|, 0, 0);
    if step.MergeAt? {
      var next := sizes[step.at - 1];
      VisitedItemsLower(sizes, p, step.at, |sizes|);
      assert step.nextQty * next > 0;
      assert step.nextQty >= 1;
    }
  }

  /** The merge changes at most one count, that of the next larger size, and drops every
      key up to the size it merged from; without a merge the counts stay as they were. */
  lemma GreedyMergesOnce(sizes: seq<int>, order: int)
    requires AllPositive(sizes)
    ensures var p, g := FilledAndPatched(sizes, order), Greedy(sizes, order);
      || g == p
      || exists at :: && 0 < at < |sizes| && sizes[at] in p
                      && (forall k :: k in g <==> (k in p || k == sizes[at - 1]) && k > sizes[at])
                      && (forall k :: k in g && k != sizes[at - 1] ==> g[k] == p[k])
  {
    var p := FilledAndPatched(sizes, order);
    var step := MergeScan(sizes, p, |sizes|, 0, 0);
    if step.MergeAt? {
      var at := step.at;
      assert sizes[at] > 0;
    }
  }

  // ----- the overwrite at the merge, and its correction -----

  /** The entries of m whose size is listed at an index in lo..hi-1. */
  function Between(sizes: seq<int>, m: map<int, int>, lo: nat, hi: nat): map<int, int>
    requires lo <= hi <= |sizes|
  {
    map k | k in m && k in sizes[lo..hi] :: m[k]
  }

  /** With distinct sizes, the items the scan collects over indices lo..hi-1 are the items
      the map holds in those sizes. */
  lemma {:induction false} BetweenItems(sizes: seq<int>, m: map<int, int>, lo: nat, hi: nat)
    requires lo <= hi <= |sizes| && StrictlyDescending(sizes)
    ensures TotalItems(Between(sizes, m, lo, hi)) == VisitedItems(sizes, m, lo, hi)
    decreases hi
  {
    if hi == lo {
      assert Between(sizes, m, lo, hi) == map[];
    } else {
      var t := sizes[hi - 1];
      BetweenItems(sizes, m, lo, hi - 1);
      var b, b' := Between(sizes, m, lo, hi), Between(sizes, m, lo, hi - 1);
      assert t !in sizes[lo..hi - 1] by {
        forall j | lo <= j < hi - 1 ensures sizes[j] != t { assert sizes[j] > t; }
      }
      assert sizes[lo..hi] == sizes[lo..hi - 1] + [t];
      if t in m {
        assert b - {t} == b';
        TotalItemsRemove(b, t);
      } else {
        assert b == b';
      }
    }
  }

  /** With distinct sizes sorted descending and every key listed, the keys up to sizes[lo]
      are exactly the keys at indices lo and beyond. */
  lemma BelowIsTail(sizes: seq<int>, m: map<int, int>, lo: nat)
    requires lo < |sizes| && StrictlyDescending(sizes)
    requires forall k :: k in m ==> k in sizes
    ensures Below(m, sizes[lo]) == Between(sizes, m, lo, |sizes|)
  {
    forall k ensures k in Below(m, sizes[lo]) <==> k in Between(sizes, m, lo, |sizes|) {
      if k in m {
        var j :| 0 <= j < |sizes| && sizes[j] == k;
        assert k <= sizes[lo] <==> j >= lo;
        assert k in sizes[lo..] <==> j >= lo;
      }
    }
  }

  lemma TotalItemsSplit(m: map<int, int>, d: int)
    ensures TotalItems(m) == TotalItems(Above(m, d)) + TotalItems(Below(m, d))
    decreases m.Keys
  {
    if k :| k in m {
      var a, b := Above(m, d), Below(m, d);
      TotalItemsRemove(m, k);
      TotalItemsSplit(m - {k}, d);
      if k > d {
        assert Above(m - {k}, d) == a - {k} && Below(m - {k}, d) == b;
        TotalItemsRemove(a, k);
      } else {
        assert Above(m - {k}, d) == a && Below(m - {k}, d) == b - {k};
        TotalItemsRemove(b, k);
      }
    } else {
      assert Above(m, d) == map[] && Below(m, d) == map[];
    }
  }

  /** The corrected merge ships as many items as the counts it started from. */
  lemma MergeFixedKeepsItems(sizes: seq<int>, p: map<int, int>)
    requires AllPositive(sizes) && StrictlyDescending(sizes)
    requires forall k :: k in p ==> k in sizes
    ensures var step := MergeScan(sizes, p, |sizes|, 0, 0);
      var merged := ApplyMergeFixed(sizes, p, step);
      var delKey := DelKey(sizes, step);
      TotalItems(if delKey > 0 then Above(merged, delKey) else merged) == TotalItems(p)
  {
    var step := MergeScan(sizes, p, |sizes|, 0, 0);
    if step.MergeAt? {
      var at, nq := step.at, step.nextQty;
      var d, next := sizes[at], sizes[at - 1];
      var held := if next in p then p[next] else 0;
      assert ApplyMergeFixed(sizes, p, step) == p[next := held + nq];
      assert DelKey(sizes, step) == d > 0;
      var a := Above(p, d);
      assert next > d;
      var result := Above(p[next := held + nq], d);
      assert result == a[next := held + nq];
      assert next in a ==> a[next] == held;
      AddPacks(a, next, held, nq);
      MergedItems(sizes, p);
      TotalItemsSplit(p, d);
    }
  }

  /** The items of the sizes a merge folds away are exactly the items of the merged packs. */
  lemma MergedItems(sizes: seq<int>, p: map<int, int>)
    requires AllPositive(sizes) && StrictlyDescending(sizes)
    requires forall k :: k in p ==> k in sizes
    ensures var step := MergeScan(sizes, p, |sizes|, 0, 0);
      step.MergeAt? ==> TotalItems(Below(p, sizes[step.at])) == step.nextQty * sizes[step.at - 1]
  {
    var step := MergeScan(sizes, p, |sizes|, 0, 0);
    if step.MergeAt? {
      var at := step.at;
      MergeScanFirst(sizes, p, |sizes|, 0, 0);
      assert step.nextQty * sizes[at - 1] == VisitedItems(sizes, p, at, |sizes|);
      BelowIsTail(sizes, p, at);
      BetweenItems(sizes, p, at, |sizes|);
    }
  }

  /** nq more packs of size next on top of the held ones add nq × next items. */
  lemma AddPacks(a: map<int, int>, next: int, held: int, nq: int)
    requires held == if next in a then a[next] else 0
    ensures TotalItems(a[next := held + nq]) == TotalItems(a) + nq * next
  {
    TotalItemsUpdate(a, next, held + nq);
    if next in a {
      TotalItemsRemove(a, next);
    } else {
      assert a - {next} == a;
    }
    Distribute(next, held, nq);
  }

  lemma Distribute(a: int, b: int, c: int)
    ensures a * (b + c) == a * b + c * a
  {
  }

  /** The corrected fallback meets every positive order when the sizes are positive, distinct
      and sorted descending. */
  lemma GreedyFixedMeetsOrder(sizes: seq<int>, order: int)
    requires AllPositive(sizes) && StrictlyDescending(sizes) && |sizes| > 0 && order > 0
    ensures TotalItems(GreedyFixed(sizes, order)) >= order
  {
    FilledAndPatchedMeetsOrder(sizes, order);
    MergeFixedKeepsItems(sizes, FilledAndPatched(sizes, order));
  }

  /** The merge as written replaces the packs already held of the next larger size: for the
      sizes 100 and 25 and an order of 199 the answer is one pack of 100, short of the order. */
  lemma OverwriteLosesItems()
    ensures Greedy([100, 25], 199) == map[100 := 1]
    ensures TotalItems(map[100 := 1]) == 100 < 199
  {
    var sizes := [100, 25];
    var f := NaiveFillResult(sizes, 199);
    assert f == Fill(map[100 := 1, 25 := 3], 175);
    var p := FilledAndPatched(sizes, 199);
    assert PatchIndex(sizes, 24, 2) == 1;
    assert p == map[100 := 1, 25 := 4];
    assert MergeScan(sizes, p, 2, 0, 0) == MergeAt(1, 1);
    assert Above(map[100 := 1, 25 := 4], 25) == map[100 := 1];
    TotalItemsRemove(map[100 := 1], 100);
    assert map[100 := 1] - {100} == map[];
  }

  /** The corrected merge on the same input: two packs of 100. */
  lemma FixedKeepsPacks()
    ensures GreedyFixed([100, 25], 199) == map[100 := 2]
  {
    var sizes := [100, 25];
    var f := NaiveFillResult(sizes, 199);
    assert f == Fill(map[100 := 1, 25 := 3], 175);
    var p := FilledAndPatched(sizes, 199);
    assert PatchIndex(sizes, 24, 2) == 1;
    assert p == map[100 := 1, 25 := 4];
    assert MergeScan(sizes, p, 2, 0, 0) == MergeAt(1, 1);
    assert Above(map[100 := 2, 25 := 4], 25) == map[100 := 2];
  }
}
