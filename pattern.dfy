/**
 * The frequent-pattern entity that the bounded collector stores: an ordered
 * sequence of attribute ids together with its support count.
 *
 * Only the part of its behaviour that the collector relies on is modelled:
 * its length, its support, the support-based comparison, the sub-pattern test
 * (containment of item sets) and extension by one attribute.
 */
module Patterns {

  datatype Pattern = Pattern(items: seq<int>, support: int)

  /** Number of items; a pattern of length 0 is never retained. */
  function Length(p: Pattern): (r: nat)
    ensures r == 0 <==> p.items == []
  {
    |p.items|
  }

  /** `p` is a sub-pattern of `q` when every item of `p` is an item of `q`. */
  predicate IsSubPatternOf(p: Pattern, q: Pattern)
  {
    forall i :: i in p.items ==> i in q.items
  }

  /** Three-way comparison of two patterns by their support alone. */
  function CompareTo(p: Pattern, q: Pattern): (r: int)
    ensures r == -1 || r == 0 || r == 1
    ensures r < 0 <==> p.support < q.support
    ensures r > 0 <==> p.support > q.support
  {
    if p.support < q.support then -1
    else if p.support > q.support then 1
    else 0
  }

  /** Extends `p` by one attribute and gives it a new support count. */
  function Add(p: Pattern, attribute: int, support: int): (r: Pattern)
    ensures Length(r) == Length(p) + 1
    ensures r.support == support
    ensures IsSubPatternOf(p, r) && attribute in r.items
    ensures forall i :: i in r.items ==> i in p.items || i == attribute
  {
    Pattern(p.items + [attribute], support)
  }

  /** Every pattern is a sub-pattern of itself, so a duplicate candidate always meets a super-pattern in its bucket. */
  lemma SubPatternReflexive(p: Pattern)
    ensures IsSubPatternOf(p, p)
  {
  }
}
