/** The packSolution record of the calculator and the order used to compare two of them. */
module Solution {

  /** One candidate answer: a size-to-count map with its two totals and a flag that says
      whether a packing was found at all. */
  datatype PackSolution = PackSolution(packs: map<int, int>, totalItems: int, totalPacks: int, isValid: bool)

  /** The Go zero value `packSolution{isValid: false}`: a nil map reads as empty. */
  const NoSolution := PackSolution(map[], 0, 0, false)

  /** a is better than b: fewer items, and for as many items, fewer packs. */
  function IsBetterSolution(a: PackSolution, b: PackSolution): bool {
    if a.totalItems != b.totalItems then a.totalItems < b.totalItems else a.totalPacks < b.totalPacks
  }

  lemma IsBetterIrreflexive(a: PackSolution)
    ensures !IsBetterSolution(a, a)
  {
  }

  lemma IsBetterAsymmetric(a: PackSolution, b: PackSolution)
    ensures IsBetterSolution(a, b) ==> !IsBetterSolution(b, a)
  {
  }

  lemma IsBetterTransitive(a: PackSolution, b: PackSolution, c: PackSolution)
    requires IsBetterSolution(a, b) && IsBetterSolution(b, c)
    ensures IsBetterSolution(a, c)
  {
  }

  /** The order is total on the pair (totalItems, totalPacks): two solutions with different
      totals are always comparable, and two with equal totals never beat each other. */
  lemma IsBetterTotal(a: PackSolution, b: PackSolution)
    ensures (a.totalItems, a.totalPacks) != (b.totalItems, b.totalPacks)
            <==> IsBetterSolution(a, b) || IsBetterSolution(b, a)
  {
  }

  /** Between solutions for the same number of items only the pack count decides. */
  lemma IsBetterSameItems(a: PackSolution, b: PackSolution)
    requires a.totalItems == b.totalItems
    ensures IsBetterSolution(a, b) <==> a.totalPacks < b.totalPacks
  {
  }

  /** Fewer items always wins, whatever the pack counts. */
  lemma IsBetterFewerItems(a: PackSolution, b: PackSolution)
    requires a.totalItems < b.totalItems
    ensures IsBetterSolution(a, b)
  {
  }
}
