/** The exported operations of the pack package: CalculatePacks and SavePackSizes, with the
    argument validation they share. */
module Calculator {
  import opened Combination
  import opened Sorting
  import opened ExactSolver

  /** Why a call is refused. Both validation errors wrap ErrInvalidArg in the source. */
  datatype PackError =
    | OrderNotPositive
    | SizeNotPositive(size: int)
    /** No sizes at all: the exact solver reads the last size of an empty slice. */
    | NoSizes

  datatype Result<T> = Ok(value: T) | Err(error: PackError)

  /** Outcome of the size check: all sizes positive, or the first one that is not. */
  datatype Check = Pass | Fail(size: int)

  /** What SavePackSizes does: refuse the sizes, or hand them to the repository unchanged. */
  datatype SaveOutcome = Rejected(error: PackError) | StoreRequested(sizes: seq<int>)

  /** The range loop over the sizes that stops at the first one that is not positive. */
  method ValidateSizes(sizes: seq<int>) returns (c: Check)
    ensures c.Pass? <==> AllPositive(sizes)
    ensures c.Fail? ==> exists i :: 0 <= i < |sizes| && sizes[i] == c.size && c.size <= 0 && AllPositive(sizes[..i])
  {
    for i := 0 to |sizes|
      invariant AllPositive(sizes[..i])
    {
      if sizes[i] <= 0 {
        return Fail(sizes[i]);
      }
      assert sizes[..i + 1] == sizes[..i] + [sizes[i]];
    }
    assert sizes[..|sizes|] == sizes;
    return Pass;
  }

  /** SavePackSizes: refuses any non-positive size, naming the first, and otherwise passes the
      sizes on to the repository as they are (an empty list included). */
  method SavePackSizes(sizes: seq<int>) returns (o: SaveOutcome)
    ensures o.StoreRequested? <==> AllPositive(sizes)
    ensures o.StoreRequested? ==> o.sizes == sizes
    ensures o.Rejected? ==>
      && o.error.SizeNotPositive?
      && exists i :: 0 <= i < |sizes| && sizes[i] == o.error.size <= 0 && AllPositive(sizes[..i])
  {
    var c := ValidateSizes(sizes);
    if c.Fail? {
      return Rejected(SizeNotPositive(c.size));
    }
    return StoreRequested(sizes);
  }

  /** CalculatePacks. A non-positive order is refused first, then the first non-positive size;
      a refused call leaves the caller's slice as it was. Otherwise the slice is sorted in
      place, largest size first, and the answer ships the fewest items that meet the order
      and, for that many items, uses the fewest packs. */
  method CalculatePacks(sizes: array<int>, order: int) returns (r: Result<map<int, int>>)
    modifies sizes
    ensures order <= 0 ==> r == Err(OrderNotPositive)
    ensures order > 0 && !AllPositive(old(sizes[..])) ==>
      && r.Err? && r.error.SizeNotPositive?
      && exists i :: 0 <= i < sizes.Length && old(sizes[i]) == r.error.size <= 0 && AllPositive(old(sizes[..i]))
    ensures r.Err? ==> sizes[..] == old(sizes[..])
    ensures order > 0 && AllPositive(old(sizes[..])) && sizes.Length == 0 ==> r == Err(NoSizes)
    ensures order > 0 && AllPositive(old(sizes[..])) && sizes.Length > 0 ==>
      && sizes[..] == SortDesc(old(sizes[..]))
      && r.Ok?
      && exists ps :: Optimal(old(sizes[..]), order, ps) && r.value == Tally(ps)
  {
    if order <= 0 {
      return Err(OrderNotPositive);
    }
    var c := ValidateSizes(sizes[..]);
    if c.Fail? {
      ghost var i :| 0 <= i < |sizes[..]| && sizes[..][i] == c.size && c.size <= 0 && AllPositive(sizes[..][..i]);
      assert sizes[..i] == sizes[..][..i];
      return Err(SizeNotPositive(c.size));
    }
    ghost var given := sizes[..];
    SortInPlace(sizes);
    if sizes.Length == 0 {
      return Err(NoSizes);
    }
    SortDescSameMembers(given);
    forall k | 0 <= k < sizes.Length ensures sizes[k] > 0 {
      assert sizes[..][k] in given;
    }
    var res, valid := CalculatePacksDp(sizes[..], order);
    // The fallback to the greedy calculator is never taken: CalculatePacksDp always succeeds.
    assert valid;
    ghost var ps :| Optimal(sizes[..], order, ps) && res == Tally(ps);
    OptimalSameSizes(sizes[..], given, order, ps);
    return Ok(res);
  }
}
