/** Clients of the class: building the four-point function through `set_value`, erasing
    from it through `erase`, and erasing from an empty function, all on the object itself. */
module Scenarios {
  import opened Points
  import opened OrderedMultiset
  import opened Domain
  import opened FunctionMaximaClass

  /** Setting (1,10), (2,5), (3,10), (4,1) in argument order, with nothing throwing,
      leaves the local maxima (1,10) and (3,10) in the maxima index, iterated in that
      order. */
  method SetFourPoints() returns (f: FunctionMaxima)
    ensures fresh(f) && f.Valid()
    ensures f.points == [Point(1, 10), Point(2, 5), Point(3, 10), Point(4, 1)]
    ensures f.maxima == multiset{Point(1, 10), Point(3, 10)}
    ensures f.MaximaInOrder() == [Point(1, 10), Point(3, 10)]
  {
    f := new FunctionMaxima();
    SetPoint(f, 1, 10);
    SetPoint(f, 2, 5);
    SetPoint(f, 3, 10);
    SetPoint(f, 4, 1);
    FourPointExample();
    FourPointMaxima(f);
  }

  /** A client's `f.set_value(a, v)` when nothing throws: it completes, and the function
      is then the old one with `f(a) = v`. */
  method SetPoint(f: FunctionMaxima, a: int, v: int)
    requires f.Valid()
    modifies f
    ensures f.Valid() && f.points == Assign(old(f.points), a, v)
  {
    var status := f.SetValue(a, v, NoFault);
    assert status == Done;
  }

  /** The maxima index of the four-point function and its iteration order. */
  lemma FourPointMaxima(f: FunctionMaxima)
    requires f.Valid()
    requires f.points == [Point(1, 10), Point(2, 5), Point(3, 10), Point(4, 1)]
    ensures f.maxima == multiset{Point(1, 10), Point(3, 10)}
    ensures f.MaximaInOrder() == [Point(1, 10), Point(3, 10)]
  {
    FourPointExample();
    assert f.maxima == multiset({Point(1, 10), Point(3, 10)});
    StrictlySortedIsSorted(ByRank, [Point(1, 10), Point(3, 10)]);
    f.MaximaInOrderUnique([Point(1, 10), Point(3, 10)]);
  }

  /** Erasing 3 from the four-point function, with nothing throwing, leaves (1,10) as
      the only local maximum. */
  method EraseThree(f: FunctionMaxima)
    requires f.Valid()
    requires f.points == [Point(1, 10), Point(2, 5), Point(3, 10), Point(4, 1)]
    modifies f
    ensures f.Valid()
    ensures f.points == [Point(1, 10), Point(2, 5), Point(4, 1)]
    ensures f.maxima == multiset{Point(1, 10)}
    ensures f.MaximaInOrder() == [Point(1, 10)]
  {
    var s := f.Erase(3, NoFault);
    EraseFromFourPointExample();
    assert f.maxima == multiset({Point(1, 10)});
    f.MaximaInOrderUnique([Point(1, 10)]);
  }

  /** `erase` on an empty function completes even when every comparison and copy would
      throw: `find` returns the end without making any. */
  method EraseFromEmpty(a: int) returns (status: Status)
    ensures status == Done
  {
    var f := new FunctionMaxima();
    status := f.Erase(a, BeforeChange);
  }
}
