/** The FunctionMaxima class: a function kept in two indices, the domain index of
    points ordered by argument and the maxima index of its local maxima ordered by
    rank, both updated in place by `SetValue` and `Erase`. The inserts of a mutation
    are made first and undone when one of them throws; the erasures, which cannot
    throw, come last. */
module FunctionMaximaClass {
  import opened Points
  import opened OrderedMultiset
  import opened Domain
  import opened MaximaUpdates

  /** `InvalidArg`, the one error the class raises itself. */
  datatype Error = InvalidArg

  datatype Result<T> = Ok(value: T) | Err(error: Error)

  /** Where a mutation meets an exception from a comparison, a copy or an allocation:
      nowhere; before it changes anything (while it looks up the argument and the
      neighbours, compares values, or builds the new point), which a mutation that does
      none of these cannot meet; or in the insert numbered `step`, counted from 0 in the
      order the `try` block attempts them. */
  datatype Fault = NoFault | BeforeChange | ThrowAt(step: nat)

  /** How a mutation ended: it completed, or an exception left the object unchanged. */
  datatype Status = Done | Thrown

  /** Inserts made one after another add up to their union, whichever comes first. */
  lemma InsertsAddUp(M: multiset<Point>, I: multiset<Point>, N: multiset<Point>)
    ensures M + I + N == M + (I + N)
    ensures M + I + N == M + N + I
    ensures M + multiset{} == M
  {
  }

  /** A mutation inserts one point for each staged neighbour and one for the new point
      when it qualifies. */
  lemma PromotionsSize(c: Neighbourhood, isMaxNew: bool, n: Point)
    ensures |StagedNeighbours(c)| == (if c.existsLeft && c.isMaxLeft && !c.isInLeft then 1 else 0)
                                     + (if c.existsRight && c.isMaxRight && !c.isInRight then 1 else 0)
    ensures |Promotions(c, isMaxNew, n)| == |StagedNeighbours(c)| + (if isMaxNew then 1 else 0)
  {
  }

  /** Of up to two inserts, numbered from 0 and attempted while none has thrown, one
      throws exactly when the fault is at a number below how many are attempted. */
  lemma ThrowsAmongTwo(fault: Fault, wantFirst: bool, wantSecond: bool)
    ensures (wantFirst && fault == ThrowAt(0))
            || (wantSecond && fault == ThrowAt(if wantFirst then 1 else 0))
        <==> fault.ThrowAt? && fault.step < (if wantFirst then 1 else 0) + (if wantSecond then 1 else 0)
  {
  }

  /** Undoing the first of the inserts still outstanding, `I` (one point `p`, or none),
      leaves the others. */
  lemma UndoFirst(M: multiset<Point>, I: multiset<Point>, Rest: multiset<Point>, p: Point)
    requires I == multiset{p} || I == multiset{}
    ensures I == multiset{p} ==> p in M + (I + Rest) && M + (I + Rest) - multiset{p} == M + Rest
    ensures I == multiset{} ==> M + (I + Rest) == M + Rest
    ensures I == multiset{p} ==> p in M + I && M + I - multiset{p} == M
    ensures I == multiset{} ==> M + I == M
  {
  }

  /** Erasing the stale neighbours one at a time, each of which is there to erase,
      takes their multiset away. */
  lemma ErasuresAreStale(S: multiset<Point>, c: Neighbourhood)
    requires StaleNeighbours(c) <= S
    ensures var l := c.existsLeft && !c.isMaxLeft && c.isInLeft;
      var r := c.existsRight && !c.isMaxRight && c.isInRight;
      var S1 := if l then S - multiset{c.leftPoint} else S;
      (l ==> c.leftPoint in S) && (r ==> c.rightPoint in S1)
      && (if r then S1 - multiset{c.rightPoint} else S1) == S - StaleNeighbours(c)
  {
    var l := c.existsLeft && !c.isMaxLeft && c.isInLeft;
    var r := c.existsRight && !c.isMaxRight && c.isInRight;
    if l && r {
      assert c.leftPoint != c.rightPoint ==> StaleNeighbours(c)[c.rightPoint] == 1;
      assert c.leftPoint == c.rightPoint ==> StaleNeighbours(c)[c.rightPoint] == 2;
    }
  }

  /** Erasing the replaced point after the stale neighbours, when it was indexed,
      takes all the demotions away. */
  lemma ErasuresAreDemotions(S: multiset<Point>, c: Neighbourhood, isInOld: bool, o: Point)
    requires Demotions(c, isInOld, o) <= S
    ensures StaleNeighbours(c) <= S
    ensures isInOld ==> o in S - StaleNeighbours(c)
    ensures (if isInOld then (S - StaleNeighbours(c)) - multiset{o} else S - StaleNeighbours(c))
            == S - Demotions(c, isInOld, o)
  {
    if isInOld {
      assert Demotions(c, isInOld, o)[o] == StaleNeighbours(c)[o] + 1;
    }
  }

  /** What `set_value(a, v)` finds out before changing anything determines its effect:
      what it inserts and erases are the promotions and demotions of the splice, the old
      point sits where it was once the new one is inserted after it, and dropping it
      leaves the new function, whose domain index is still strictly ordered. */
  lemma SetValueOutcome(P: seq<Point>, a: int, v: int, oldMid: nat, existsOld: bool, c: Neighbourhood,
                        isInOld: bool, isMaxNew: bool)
    requires StrictlySorted(ByArg, P)
    requires oldMid == OrderedMultiset.Find(ByArg, P, Point(a, v)) && (existsOld <==> oldMid < |P|)
    requires c == SetValueNeighbours(P, a, v)
    requires isInOld <==> existsOld && LocalMaxAt(P, oldMid)
    requires isMaxNew == NewPointQualifies(c, Point(a, v))
    ensures var n := Point(a, v);
      var o := if existsOld then P[oldMid] else Point(0, 0);
      Promotions(c, isMaxNew, n) == SetValuePromoted(P, a, v)
      && Demotions(c, isInOld, o) == SetValueDemoted(P, a, v)
      && SetValueInserts(P, a, v) == |Promotions(c, isMaxNew, n)| + 1
      && (isInOld ==> existsOld)
  {
    var n := Point(a, v);
    var k, r := LowerBound(ByArg, P, n), UpperBound(ByArg, P, n);
    SetValueShape(P, a, v);
    assert existsOld ==> oldMid == k && r == k + 1;
  }

  /** In the domain index, `set_value(a, v)` inserts the new point after the old one, and
      dropping the old one then leaves the function with `f(a) = v`, still ordered. */
  lemma SetValueDomain(P: seq<Point>, a: int, v: int, oldMid: nat, existsOld: bool)
    requires StrictlySorted(ByArg, P)
    requires oldMid == OrderedMultiset.Find(ByArg, P, Point(a, v)) && (existsOld <==> oldMid < |P|)
    ensures var I := Insert(ByArg, P, Point(a, v));
      (existsOld ==> oldMid < |I| && I[oldMid] == P[oldMid])
      && (if existsOld then I[..oldMid] + I[oldMid + 1..] else I) == Assign(P, a, v)
      && StrictlySorted(ByArg, Assign(P, a, v))
  {
    var n := Point(a, v);
    var k, r := LowerBound(ByArg, P, n), UpperBound(ByArg, P, n);
    SetValueShape(P, a, v);
    SetValueInsert(P, a, v);
    AssignSorted(P, a, v);
    assert existsOld ==> oldMid == k && r == k + 1;
  }

  /** `erase(a)` of an argument outside the domain changes nothing and inserts nothing. */
  lemma EraseNothing(P: seq<Point>, M: multiset<Point>, a: int)
    requires StrictlySorted(ByArg, P)
    requires OrderedMultiset.Find(ByArg, P, Point(a, 0)) == |P|
    ensures Remove(P, a) == P && EraseInserts(P, a) == 0
    ensures M + ErasePromoted(P, a) - EraseDemoted(P, a) == M
  {
    RemoveSplice(P, a, 0);
    assert ErasePromoted(P, a) == multiset{} && EraseDemoted(P, a) == multiset{};
    assert M + multiset{} - multiset{} == M;
  }

  /** Where `find` locates `a`, dropping the point there is `erase(a)`: what it inserts
      and erases are the promotions and demotions of the drop. */
  lemma EraseOutcome(P: seq<Point>, a: int, mid: nat)
    requires mid == OrderedMultiset.Find(ByArg, P, Point(a, 0)) && mid < |P|
    ensures var c := Classify(P, mid, mid + 1, []);
      StagedNeighbours(c) == ErasePromoted(P, a)
      && Demotions(c, LocalMaxAt(P, mid), P[mid]) == EraseDemoted(P, a)
      && EraseInserts(P, a) == |StagedNeighbours(c)|
  {
  }

  class FunctionMaxima {
    /** The domain index `points`, in ascending argument order. */
    var points: seq<Point>
    /** The maxima index `maxima`; `MaximaInOrder` is its iteration order. */
    var maxima: multiset<Point>

    /** Arguments are unique and ascending, and the maxima index holds exactly the local
        maxima of the function, each once. */
    ghost predicate Valid()
      reads this
    {
      StrictlySorted(ByArg, points) && maxima == multiset(LocalMaxima(points))
    }

    /** The empty function. */
    constructor ()
      ensures Valid() && points == [] && maxima == multiset{}
    {
      points := [];
      maxima := multiset{};
    }

    /** `size`: the number of arguments in the domain. */
    function Size(): (n: nat)
      reads this
      requires Valid()
      ensures n == |Args(points)|
    {
      SizeIsDomainSize(points);
      |points|
    }

    /** `find`: the position of the point for `a`, or `|points|` (the end iterator). The
        search key carries the value of the first point, which the comparison ignores. */
    function Find(a: int): (it: nat)
      reads this
      requires Valid()
      ensures it <= |points|
      ensures it < |points| <==> Lookup(points, a).Some?
      ensures it < |points| ==> points[it].arg == a && Lookup(points, a) == Some(points[it].value)
    {
      if |points| == 0 then 0
      else
        var v := points[0].value;
        FindByArg(points, a, v);
        OrderedMultiset.Find(ByArg, points, Point(a, v))
    }

    /** `value_at`: the value at `a`, or `InvalidArg` when `a` is not in the domain. */
    function ValueAt(a: int): (r: Result<int>)
      reads this
      requires Valid()
      ensures Lookup(points, a).Some? ==> r == Ok(Lookup(points, a).value)
      ensures Lookup(points, a).None? ==> r == Err(InvalidArg)
    {
      var it := Find(a);
      if it == |points| then Err(InvalidArg) else Ok(points[it].value)
    }

    /** `mx_begin()` to `mx_end()`: the maxima index in its iteration order, by rank. */
    ghost function MaximaInOrder(): (s: seq<Point>)
      reads this
      requires Valid()
      ensures StrictlySorted(ByRank, s)
      ensures multiset(s) == maxima
    {
      MaximaOfSet(RankOrder(maxima), LocalMaxima(points));
      RankOrder(maxima)
    }

    /** The iteration order is the only rank order of the maxima index. */
    lemma MaximaInOrderUnique(s: seq<Point>)
      requires Valid()
      requires Sorted(ByRank, s) && multiset(s) == maxima
      ensures s == MaximaInOrder()
    {
      StrictlySortedIsSorted(ByRank, MaximaInOrder());
      SortedUnique(s, MaximaInOrder());
    }

    /** A non-empty function has a local maximum, and `*mx_begin()` holds the largest
        value of the function. */
    lemma FirstMaximum()
      requires Valid() && |points| > 0
      ensures |MaximaInOrder()| > 0
      ensures forall p :: p in points ==> p.value <= MaximaInOrder()[0].value
    {
      FirstMaximumIsGlobal(points, MaximaInOrder());
    }

    /** `maxima.find(*it) != maxima.end()` for the point at position `i`: the maxima
        index is searched by rank, and as the rank order is total this is membership. */
    method InMaxima(i: nat) returns (isIn: bool)
      requires Valid() && i < |points|
      ensures isIn <==> LocalMaxAt(points, i)
    {
      isIn := points[i] in maxima;
      MaximumIffLocal(points, i);
    }

    /** The classification both mutations begin with, once `left` (the iterator before
        it is stepped back) and `right` (the upper bound) are known and the points from
        `left` up to `right` are to be replaced by `mid`: the new point for `set_value`,
        nothing for `erase`. */
    method Neighbours(left: nat, right: nat, mid: seq<Point>) returns (c: Neighbourhood)
      requires Valid()
      requires left <= right <= |points| && |mid| <= 1
      ensures c == Classify(points, left, right, mid)
    {
      var existsLeft, leftIt := false, left;
      if leftIt != 0 {
        leftIt := leftIt - 1;
        existsLeft := true;
      }
      var existsRight := right != |points|;
      var leftPoint, isMaxLeft, isInLeft := Point(0, 0), false, false;
      var rightPoint, isMaxRight, isInRight := Point(0, 0), false, false;
      if existsLeft {
        leftPoint := points[leftIt];
        isMaxLeft := IsMaximum(if leftIt != 0 then points[leftIt - 1] else leftPoint,
                               leftPoint,
                               if |mid| == 1 then mid[0] else if existsRight then points[right] else leftPoint);
        isInLeft := InMaxima(leftIt);
      }
      if existsRight {
        rightPoint := points[right];
        isMaxRight := IsMaximum(if |mid| == 1 then mid[0] else if existsLeft then leftPoint else rightPoint,
                                rightPoint,
                                if right + 1 != |points| then points[right + 1] else rightPoint);
        isInRight := InMaxima(right);
      }
      c := Neighbourhood(existsLeft, leftIt, leftPoint, isMaxLeft, isInLeft,
                         existsRight, right, rightPoint, isMaxRight, isInRight);
    }

    /** `maxima.insert(p)`, which throws when `fault` picks this `step`; a throw leaves
        the index as it was. */
    method InsertMaximum(p: Point, fault: Fault, step: nat) returns (thrown: bool)
      modifies this`maxima
      ensures thrown == (fault == ThrowAt(step))
      ensures maxima == if thrown then old(maxima) else old(maxima) + multiset{p}
    {
      thrown := fault == ThrowAt(step);
      if !thrown {
        maxima := maxima + multiset{p};
      }
    }

    /** `maxima.erase(it)` for an iterator at `p`: one occurrence of `p` is removed. */
    method EraseMaximum(p: Point)
      requires p in maxima
      modifies this`maxima
      ensures maxima == old(maxima) - multiset{p}
    {
      maxima := maxima - multiset{p};
    }

    /** One guarded maxima insert of a `try` block: `p` is inserted, as insert number
        `step`, when it is `wanted`; `next` numbers the insert after it. */
    method GuardedInsert(wanted: bool, p: Point, fault: Fault, step: nat)
      returns (thrown: bool, inserted: bool, next: nat)
      modifies this`maxima
      ensures thrown == (wanted && fault == ThrowAt(step))
      ensures inserted == (wanted && !thrown)
      ensures next == if wanted then step + 1 else step
      ensures maxima == old(maxima) + (if inserted then multiset{p} else multiset{})
    {
      InsertsAddUp(maxima, multiset{}, multiset{});
      thrown, inserted, next := false, false, step;
      if wanted {
        thrown := InsertMaximum(p, fault, step);
        next := step + 1;
        inserted := !thrown;
      }
    }

    /** The maxima inserts both mutations begin their `try` block with: the left and then
        the right neighbour, each when it now qualifies and is not indexed yet, numbered
        from 0. Once one throws, the rest are not attempted; `step` is the number of the
        insert that comes next. */
    method InsertNeighbours(c: Neighbourhood, fault: Fault)
      returns (thrown: bool, insertLeft: bool, insertRight: bool, step: nat)
      modifies this`maxima
      ensures thrown <==> fault.ThrowAt? && fault.step < |StagedNeighbours(c)|
      ensures !thrown ==> insertLeft == (c.existsLeft && c.isMaxLeft && !c.isInLeft)
                          && insertRight == (c.existsRight && c.isMaxRight && !c.isInRight)
                          && step == |StagedNeighbours(c)|
      ensures maxima == old(maxima) + ((if insertLeft then multiset{c.leftPoint} else multiset{})
                                       + (if insertRight then multiset{c.rightPoint} else multiset{}))
    {
      PromotionsSize(c, false, Point(0, 0));
      ghost var M := maxima;
      thrown, insertLeft, step := GuardedInsert(c.existsLeft && c.isMaxLeft && !c.isInLeft, c.leftPoint, fault, 0);
      ghost var L := if insertLeft then multiset{c.leftPoint} else multiset{};
      insertRight := false;
      if !thrown {
        thrown, insertRight, step := GuardedInsert(c.existsRight && c.isMaxRight && !c.isInRight, c.rightPoint, fault, step);
      }
      ghost var R := if insertRight then multiset{c.rightPoint} else multiset{};
      InsertsAddUp(M + L, R, multiset{});
      InsertsAddUp(M, L, R);
      ThrowsAmongTwo(fault, c.existsLeft && c.isMaxLeft && !c.isInLeft, c.existsRight && c.isMaxRight && !c.isInRight);
    }

    /** The `catch` handlers for the neighbours: each neighbour insert that succeeded is
        erased again, left first, which gives back the index `M` from before them. */
    method UndoNeighbours(ghost M: multiset<Point>, insertLeft: bool, left: Point, insertRight: bool, right: Point)
      requires maxima == M + ((if insertLeft then multiset{left} else multiset{})
                              + (if insertRight then multiset{right} else multiset{}))
      modifies this`maxima
      ensures maxima == M
    {
      ghost var L := if insertLeft then multiset{left} else multiset{};
      ghost var R := if insertRight then multiset{right} else multiset{};
      UndoFirst(M, L, R, left);
      if insertLeft {
        EraseMaximum(left);
      }
      UndoFirst(M, R, multiset{}, right);
      if insertRight {
        EraseMaximum(right);
      }
    }

    /** The end of the `try` block of `set_value`, from insert number `step` on: the
        maxima insert of the new point when it qualifies, then its domain insert. */
    method InsertNewPoint(newMid: Point, isMaxNew: bool, fault: Fault, step: nat)
      returns (thrown: bool, insertNew: bool)
      modifies this
      ensures thrown <==> fault.ThrowAt? && step <= fault.step <= step + (if isMaxNew then 1 else 0)
      ensures !thrown ==> insertNew == isMaxNew
      ensures points == if thrown then old(points) else Insert(ByArg, old(points), newMid)
      ensures maxima == old(maxima) + (if insertNew then multiset{newMid} else multiset{})
    {
      var next;
      thrown, insertNew, next := GuardedInsert(isMaxNew, newMid, fault, step);
      if !thrown {
        thrown := fault == ThrowAt(next);
        if !thrown {
          points := Insert(ByArg, points, newMid);
        }
      }
    }

    /** The `try` block of `set_value`: the neighbour inserts, the maxima insert of the
        new point when it qualifies, then the domain insert, numbered in that order. Once
        one throws, the rest are not attempted. */
    method TrySetValue(c: Neighbourhood, newMid: Point, isMaxNew: bool, fault: Fault)
      returns (thrown: bool, insertLeft: bool, insertRight: bool, insertNew: bool)
      modifies this
      ensures thrown <==> fault.ThrowAt? && fault.step <= |Promotions(c, isMaxNew, newMid)|
      ensures !thrown ==> insertLeft == (c.existsLeft && c.isMaxLeft && !c.isInLeft)
                          && insertRight == (c.existsRight && c.isMaxRight && !c.isInRight)
                          && insertNew == isMaxNew
      ensures points == if thrown then old(points) else Insert(ByArg, old(points), newMid)
      ensures maxima == old(maxima) + ((if insertLeft then multiset{c.leftPoint} else multiset{})
                                       + (if insertRight then multiset{c.rightPoint} else multiset{}))
                                    + (if insertNew then multiset{newMid} else multiset{})
    {
      PromotionsSize(c, isMaxNew, newMid);
      var step;
      thrown, insertLeft, insertRight, step := InsertNeighbours(c, fault);
      if !thrown {
        thrown, insertNew := InsertNewPoint(newMid, isMaxNew, fault, step);
      } else {
        insertNew := false;
        InsertsAddUp(maxima, multiset{}, multiset{});
      }
    }

    /** The `catch` handler of `set_value`: each maxima insert that succeeded is erased
        again, in the order the inserts were made, which gives back the index `M` from
        before them. */
    method UndoSetValue(ghost M: multiset<Point>, insertLeft: bool, left: Point, insertRight: bool, right: Point,
                        insertNew: bool, newMid: Point)
      requires maxima == M + ((if insertLeft then multiset{left} else multiset{})
                              + (if insertRight then multiset{right} else multiset{}))
                          + (if insertNew then multiset{newMid} else multiset{})
      modifies this`maxima
      ensures maxima == M
    {
      ghost var N := if insertNew then multiset{newMid} else multiset{};
      InsertsAddUp(M, (if insertLeft then multiset{left} else multiset{})
                      + (if insertRight then multiset{right} else multiset{}), N);
      UndoNeighbours(M + N, insertLeft, left, insertRight, right);
      UndoFirst(M, N, multiset{}, newMid);
      if insertNew {
        EraseMaximum(newMid);
      }
    }

    /** The `try` block of `set_value` and its handler: when an insert throws, the maxima
        inserts that succeeded are erased again, leaving both indices as they were. */
    method StageSetValue(c: Neighbourhood, newMid: Point, isMaxNew: bool, fault: Fault) returns (thrown: bool)
      modifies this
      ensures thrown <==> fault.ThrowAt? && fault.step <= |Promotions(c, isMaxNew, newMid)|
      ensures thrown ==> points == old(points) && maxima == old(maxima)
      ensures !thrown ==> points == Insert(ByArg, old(points), newMid)
                          && maxima == old(maxima) + Promotions(c, isMaxNew, newMid)
    {
      ghost var M := maxima;
      var insertLeft, insertRight, insertNew;
      thrown, insertLeft, insertRight, insertNew := TrySetValue(c, newMid, isMaxNew, fault);
      if thrown {
        UndoSetValue(M, insertLeft, c.leftPoint, insertRight, c.rightPoint, insertNew, newMid);
      } else {
        InsertsAddUp(M, StagedNeighbours(c), if isMaxNew then multiset{newMid} else multiset{});
      }
    }

    /** The erasures both mutations end with for the neighbours that were indexed and no
        longer qualify; they cannot throw. */
    method EraseStale(c: Neighbourhood)
      requires StaleNeighbours(c) <= maxima
      modifies this`maxima
      ensures maxima == old(maxima) - StaleNeighbours(c)
    {
      ErasuresAreStale(maxima, c);
      if c.existsLeft && !c.isMaxLeft && c.isInLeft {
        EraseMaximum(c.leftPoint);
      }
      if c.existsRight && !c.isMaxRight && c.isInRight {
        EraseMaximum(c.rightPoint);
      }
    }

    /** What `set_value(a, v)` finds out before it changes anything: where `a`'s old
        point is (`find`), the neighbourhood of the new point, whether the old point is
        indexed and whether the new point qualifies. */
    method PrepareSetValue(a: int, v: int)
      returns (oldMid: nat, existsOld: bool, c: Neighbourhood, isInOld: bool, isMaxNew: bool)
      requires Valid()
      ensures oldMid == OrderedMultiset.Find(ByArg, points, Point(a, v))
      ensures existsOld <==> oldMid < |points|
      ensures c == SetValueNeighbours(points, a, v)
      ensures isInOld <==> existsOld && LocalMaxAt(points, oldMid)
      ensures isMaxNew == NewPointQualifies(c, Point(a, v))
    {
      var newMid := Point(a, v);
      SetValueShape(points, a, v);
      oldMid := OrderedMultiset.Find(ByArg, points, newMid);
      var right := UpperBound(ByArg, points, newMid);
      var left := if oldMid != |points| then oldMid else right;
      existsOld := oldMid != |points|;
      c := Neighbours(left, right, [newMid]);
      isInOld := false;
      if existsOld {
        isInOld := InMaxima(oldMid);
      }
      isMaxNew := IsMaximum(if c.existsLeft then c.leftPoint else newMid,
                            newMid,
                            if c.existsRight then c.rightPoint else newMid);
    }

    /** The erasures `set_value` ends with once its inserts have succeeded: the stale
        neighbours, then `a`'s old point `o`, at `oldMid`, from the domain index and, when
        it was indexed, from the maxima index. */
    method CommitSetValue(c: Neighbourhood, oldMid: nat, existsOld: bool, isInOld: bool, ghost o: Point)
      requires existsOld ==> oldMid < |points| && points[oldMid] == o
      requires isInOld ==> existsOld
      requires Demotions(c, isInOld, o) <= maxima
      modifies this
      ensures maxima == old(maxima) - Demotions(c, isInOld, o)
      ensures points == if existsOld then old(points)[..oldMid] + old(points)[oldMid + 1..] else old(points)
    {
      ErasuresAreDemotions(maxima, c, isInOld, o);
      EraseStale(c);
      if existsOld {
        var oldPoint := points[oldMid];
        points := points[..oldMid] + points[oldMid + 1..];
        if isInOld {
          EraseMaximum(oldPoint);
        }
      }
    }

    /** `set_value`: make the function `v` at `a`. The neighbours and the new point are
        classified first; the maxima inserts and the domain insert are then staged, and
        undone if one of them throws; only then are stale entries and the old point of
        `a` removed. */
    method SetValue(a: int, v: int, fault: Fault) returns (status: Status)
      requires Valid()
      modifies this
      ensures Valid()
      ensures status == Thrown <==>
        fault == BeforeChange || (fault.ThrowAt? && fault.step < SetValueInserts(old(points), a, v))
      ensures status == Done ==> points == Assign(old(points), a, v)
      ensures status == Done ==>
        maxima == old(maxima) + SetValuePromoted(old(points), a, v) - SetValueDemoted(old(points), a, v)
      ensures status == Thrown ==> points == old(points) && maxima == old(maxima)
    {
      if fault == BeforeChange {
        return Thrown;
      }
      ghost var P := points;
      var oldMid, existsOld, c, isInOld, isMaxNew := PrepareSetValue(a, v);
      ghost var o := if existsOld then P[oldMid] else Point(0, 0);
      SetValueOutcome(P, a, v, oldMid, existsOld, c, isInOld, isMaxNew);
      var thrown := StageSetValue(c, Point(a, v), isMaxNew, fault);
      if thrown {
        return Thrown;
      }
      SetValueMaxima(P, a, v);
      SetValueDomain(P, a, v, oldMid, existsOld);
      CommitSetValue(c, oldMid, existsOld, isInOld, o);
      return Done;
    }

    /** The `try` block of `erase` and its handler: the neighbour inserts; when one
        throws, an insert that succeeded is erased again, leaving the maxima index as it
        was. */
    method StageErase(c: Neighbourhood, fault: Fault) returns (thrown: bool)
      modifies this`maxima
      ensures thrown <==> fault.ThrowAt? && fault.step < |StagedNeighbours(c)|
      ensures thrown ==> maxima == old(maxima)
      ensures !thrown ==> maxima == old(maxima) + StagedNeighbours(c)
    {
      ghost var M := maxima;
      var insertLeft, insertRight, step;
      thrown, insertLeft, insertRight, step := InsertNeighbours(c, fault);
      if thrown {
        UndoNeighbours(M, insertLeft, c.leftPoint, insertRight, c.rightPoint);
      }
    }

    /** What `erase` finds out about the point at `mid` before it changes anything: the
        neighbourhood left once the point is gone, and whether the point is indexed. */
    method PrepareErase(mid: nat) returns (c: Neighbourhood, isInMid: bool)
      requires Valid() && mid < |points|
      ensures c == Classify(points, mid, mid + 1, [])
      ensures isInMid <==> LocalMaxAt(points, mid)
    {
      var midPoint := points[mid];
      UpperBoundOfPoint(points, mid);
      var right := UpperBound(ByArg, points, midPoint);
      var left := if mid != |points| then mid else right;
      c := Neighbours(left, right, []);
      isInMid := InMaxima(mid);
    }

    /** The erasures `erase` ends with once its inserts have succeeded: the stale
        neighbours, then the point `o` at `mid` from the maxima index when it was indexed,
        and last from the domain index. */
    method CommitErase(c: Neighbourhood, mid: nat, isInMid: bool, ghost o: Point)
      requires mid < |points| && points[mid] == o
      requires Demotions(c, isInMid, o) <= maxima
      modifies this
      ensures maxima == old(maxima) - Demotions(c, isInMid, o)
      ensures points == old(points)[..mid] + old(points)[mid + 1..]
    {
      ErasuresAreDemotions(maxima, c, isInMid, o);
      EraseStale(c);
      if isInMid {
        EraseMaximum(points[mid]);
      }
      points := points[..mid] + points[mid + 1..];
    }

    /** `erase` once `find` has located the point, at `mid`: the neighbours are classified
        as they will be without it, the maxima inserts are staged and undone if one
        throws, and only then are stale entries and the point removed. */
    method EraseAt(mid: nat, fault: Fault) returns (status: Status)
      requires Valid() && mid < |points|
      modifies this
      ensures Valid()
      ensures var c := Classify(old(points), mid, mid + 1, []);
        status == Thrown <==> fault.ThrowAt? && fault.step < |StagedNeighbours(c)|
      ensures var c := Classify(old(points), mid, mid + 1, []);
        status == Done ==>
          points == old(points)[..mid] + old(points)[mid + 1..]
          && maxima == old(maxima) + StagedNeighbours(c) - Demotions(c, LocalMaxAt(old(points), mid), old(points)[mid])
      ensures status == Thrown ==> points == old(points) && maxima == old(maxima)
    {
      var c, isInMid := PrepareErase(mid);
      DropMaxima(points, mid);
      DropSorted(ByArg, points, mid);
      var thrown := StageErase(c, fault);
      if thrown {
        return Thrown;
      }
      CommitErase(c, mid, isInMid, points[mid]);
      return Done;
    }

    /** `erase`: take `a` out of the domain; nothing happens when it is not in it. On an
        empty function `find` compares nothing and copies no value, so nothing can throw. */
    method Erase(a: int, fault: Fault) returns (status: Status)
      requires Valid()
      modifies this
      ensures Valid()
      ensures status == Thrown <==>
        (fault == BeforeChange && |old(points)| > 0) || (fault.ThrowAt? && fault.step < EraseInserts(old(points), a))
      ensures status == Done ==> points == Remove(old(points), a)
      ensures status == Done ==>
        maxima == old(maxima) + ErasePromoted(old(points), a) - EraseDemoted(old(points), a)
      ensures status == Thrown ==> points == old(points) && maxima == old(maxima)
    {
      if fault == BeforeChange && |points| > 0 {
        return Thrown;
      }
      ghost var P := points;
      var mid := Find(a);
      FindIgnoresValue(P, a, if |P| == 0 then 0 else P[0].value, 0);
      if mid == |points| {
        EraseNothing(P, maxima, a);
        return Done;
      }
      status := EraseAt(mid, fault);
      EraseOutcome(P, a, mid);
      RemoveSplice(P, a, 0);
    }
  }
}
