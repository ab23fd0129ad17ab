/** The memo of safety verdicts shared by both searches of
    ConsoleApp1/Program.cs, as an explicit value threaded through the calls
    instead of two process-wide static sets. */
module SafetyIndex {
  import opened Coords
  import opened Safety

  /** `safe` and `unsafe` play the roles of SafeCache and UnsafeCache. */
  datatype Index = Index(safe: set<Coord>, unsafe: set<Coord>)

  const Empty := Index({}, {})

  /** The cache invariant: the two sets are disjoint and each holds only cells
      with the matching verdict. */
  ghost predicate Valid(idx: Index) {
    && idx.safe !! idx.unsafe
    && (forall c :: c in idx.safe ==> Safe(c))
    && (forall c :: c in idx.unsafe ==> !Safe(c))
  }

  /** Both caches only grow. */
  predicate Extends(idx: Index, idx': Index) {
    idx.safe <= idx'.safe && idx.unsafe <= idx'.unsafe
  }

  /** Membership of every cell other than `c` is the same in both indexes. */
  ghost predicate SameExcept(idx: Index, idx': Index, c: Coord) {
    forall d :: d != c ==> (d in idx'.safe <==> d in idx.safe) && (d in idx'.unsafe <==> d in idx.unsafe)
  }

  lemma EmptyIsValid()
    ensures Valid(Empty)
  {
  }

  /** CheckAndCacheSafety: compute the verdict and record `c` in the matching set. */
  function CheckAndCacheSafety(idx: Index, c: Coord): (r: (bool, Index))
    ensures r.0 == Safe(c)
    ensures r.0 ==> c in r.1.safe
    ensures !r.0 ==> c in r.1.unsafe
    ensures Extends(idx, r.1) && SameExcept(idx, r.1, c)
    ensures Valid(idx) ==> Valid(r.1)
  {
    if Safe(c) then (true, idx.(safe := idx.safe + {c}))
    else (false, idx.(unsafe := idx.unsafe + {c}))
  }

  /** The cache-first test `SafeCache.Contains(c) || (!UnsafeCache.Contains(c)
      && CheckAndCacheSafety(c))`; the search's form `!SafeCache.Contains(c) &&
      (UnsafeCache.Contains(c) || !CheckAndCacheSafety(c))` is its negation.
      On a valid index it gives the uncached verdict, and it evaluates the rule
      only for cells seen for the first time. */
  function CachedSafety(idx: Index, c: Coord): (r: (bool, Index))
    ensures Valid(idx) ==> r.0 == Safe(c) && Valid(r.1)
    ensures c in idx.safe + idx.unsafe ==> r.1 == idx
    ensures c in r.1.safe + r.1.unsafe
    ensures Extends(idx, r.1) && SameExcept(idx, r.1, c)
  {
    if c in idx.safe then (true, idx)
    else if c in idx.unsafe then (false, idx)
    else CheckAndCacheSafety(idx, c)
  }
}
