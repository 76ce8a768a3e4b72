/**
 * Ancestry between paths. Two paths are comparable when one is a prefix
 * of the other: they lie on one ancestor/descendant line of the tree and
 * cannot hold independent values at the same time.
 */
module Paths {

  /** One path is a prefix (in the sequence sense) of the other. */
  predicate Comparable(p: seq<string>, q: seq<string>)
  {
    p <= q || q <= p
  }

  /**
   * `startsWith(prefix, value)`: walks the prefix and stops at the first
   * key that differs. Past the end of `value` JavaScript reads `undefined`,
   * which equals no key, so a prefix longer than the value is rejected.
   */
  method StartsWith(prefix: seq<string>, value: seq<string>) returns (r: bool)
    ensures r <==> |prefix| <= |value| && value[..|prefix|] == prefix
  {
    var i := 0;
    while i < |prefix|
      invariant i <= |prefix| && i <= |value|
      invariant prefix[..i] == value[..i]
    {
      if i >= |value| || prefix[i] != value[i] {
        return false;
      }
      i := i + 1;
    }
    return true;
  }

  /** Comparability is symmetric, and every path is comparable with itself. */
  lemma ComparableBasics(p: seq<string>, q: seq<string>)
    ensures Comparable(p, q) <==> Comparable(q, p)
    ensures Comparable(p, p)
  {
  }
}
