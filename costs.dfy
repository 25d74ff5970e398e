/**
 * Cost-to-come values of the RRT* tree. The source stores Python floats and
 * uses `float('inf')` both for "no cost yet" and for the distance of an
 * out-of-range index; the model keeps that value explicit.
 */
module Costs {

  datatype Cost = Finite(value: real) | Infinite

  /** Float addition: infinity absorbs everything. */
  function Plus(a: Cost, b: Cost): (r: Cost)
    ensures r.Finite? <==> a.Finite? && b.Finite?
    ensures r.Finite? ==> r.value == a.value + b.value
  {
    if a.Finite? && b.Finite? then Finite(a.value + b.value) else Infinite
  }

  /** Float `<`: infinity is above every finite value and not below itself. */
  predicate Less(a: Cost, b: Cost)
  {
    a.Finite? && (b.Infinite? || a.value < b.value)
  }

  /** Float `<=`. */
  predicate LessEq(a: Cost, b: Cost)
  {
    b.Infinite? || (a.Finite? && a.value <= b.value)
  }

  /**
   * Cost addition is commutative and associative, infinity absorbs, and
   * adding a non-negative edge length never lowers a cost.
   */
  lemma PlusLaws(a: Cost, b: Cost, c: Cost, d: real)
    ensures Plus(a, b) == Plus(b, a)
    ensures Plus(Plus(a, b), c) == Plus(a, Plus(b, c))
    ensures Plus(a, Infinite) == Infinite
    ensures 0.0 <= d ==> LessEq(a, Plus(a, Finite(d)))
  {
  }

  lemma LessIsStrictOrder(a: Cost, b: Cost, c: Cost)
    ensures !Less(a, a)
    ensures Less(a, b) && Less(b, c) ==> Less(a, c)
    ensures Less(a, b) ==> LessEq(a, b) && !LessEq(b, a)
    ensures LessEq(a, b) && LessEq(b, c) ==> LessEq(a, c)
  {
  }
}
