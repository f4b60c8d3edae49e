/** Points of a FunctionMaxima and the orders its two indices keep them in.
    The argument type A and the value type V are both modelled as `int`, whose `<`
    is a total order and so a special case of the strict weak order the class needs. */
module Points {

  /** One point `(arg, value)` of the function. */
  datatype Point = Point(arg: int, value: int)

  /** `is_maximum`: `mid` is not below either neighbour, using `<` on values only.
      A caller with no neighbour on one side passes `mid` itself for it. */
  predicate IsMaximum(left: Point, mid: Point, right: Point): (b: bool)
    ensures b <==> left.value <= mid.value && right.value <= mid.value
  {
    !(mid.value < left.value) && !(mid.value < right.value)
  }

  /** `points_comparator`: the domain index is ordered by argument alone. */
  predicate PointsLess(p: Point, q: Point) {
    p.arg < q.arg
  }

  /** `maxima_comparator`: greater value first; values that are not less than each
      other are ordered by ascending argument. */
  predicate MaximaLess(p: Point, q: Point) {
    if !(p.value < q.value) && !(q.value < p.value) then p.arg < q.arg
    else q.value < p.value
  }

  /** The two orders, so that the ordered-multiset operations are written once. */
  datatype Order = ByArg | ByRank

  predicate Less(o: Order, p: Point, q: Point) {
    match o
    case ByArg => PointsLess(p, q)
    case ByRank => MaximaLess(p, q)
  }

  /** A boundary side of the predicate always holds: passing `mid` for a missing
      neighbour leaves only the other neighbour to be compared. */
  lemma MissingNeighbour(mid: Point, other: Point)
    ensures IsMaximum(mid, mid, other) <==> mid.value >= other.value
    ensures IsMaximum(other, mid, mid) <==> mid.value >= other.value
    ensures IsMaximum(mid, mid, mid)
  {
  }

  /** The rank order spelled out: value descending, then argument ascending. */
  lemma MaximaLessMeaning(p: Point, q: Point)
    ensures MaximaLess(p, q) <==> p.value > q.value || (p.value == q.value && p.arg < q.arg)
  {
  }

  /** Both comparators are strict weak orders, as std::multiset requires. */
  lemma StrictWeakOrder(o: Order, p: Point, q: Point, r: Point)
    ensures !Less(o, p, p)
    ensures Less(o, p, q) ==> !Less(o, q, p)
    ensures Less(o, p, q) && Less(o, q, r) ==> Less(o, p, r)
    ensures Less(o, p, r) ==> Less(o, p, q) || Less(o, q, r)
  {
  }

  /** The rank order is total on points: two points that neither precedes are equal,
      so a lookup in the maxima index by rank is a lookup by point. */
  lemma RankTotal(p: Point, q: Point)
    ensures !MaximaLess(p, q) && !MaximaLess(q, p) <==> p == q
  {
  }
}
