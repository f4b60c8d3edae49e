/** What `set_value` and `erase` must do to the maxima index: which points they promote
    (neighbours, or the new point, that become local maxima and are not yet indexed),
    which they demote (indexed points that stop being local maxima), and the proof that
    promoting and demoting exactly those keeps the index equal to the local maxima.
    Both mutations replace the at most one point at position `k` of the domain index
    (positions `k` up to `r`) by at most one point `mid`, so the argument is made once
    for such a splice. */
module MaximaUpdates {
  import opened Points
  import opened OrderedMultiset
  import opened Domain

  /** What a mutation learns about the two neighbours of the changed argument before it
      changes anything: whether each exists, its position in the domain index (the
      iterator), its point, whether it qualifies as a local maximum of the changed
      function (`isMax…`) and whether the maxima index holds it now (`isIn…`). A missing
      neighbour has position `left` or `right` unchanged, the point `(0, 0)` and no flag
      set. */
  datatype Neighbourhood = Neighbourhood(
    existsLeft: bool, left: nat, leftPoint: Point, isMaxLeft: bool, isInLeft: bool,
    existsRight: bool, right: nat, rightPoint: Point, isMaxRight: bool, isInRight: bool)

  /** The classification both mutations compute when positions `left` up to `right` of
      `ps` are to be replaced by `mid`: the left neighbour at `left - 1` is compared with
      its own left neighbour and with what follows it after the change (the new point,
      or for `erase` the right neighbour, or itself); the right neighbour at `right`
      likewise. A neighbour is in the maxima index when it is a local maximum now. */
  function Classify(ps: seq<Point>, left: nat, right: nat, mid: seq<Point>): Neighbourhood
    requires left <= right <= |ps| && |mid| <= 1
  {
    var existsLeft, existsRight := 0 < left, right < |ps|;
    var l := if existsLeft then ps[left - 1] else Point(0, 0);
    var r := if existsRight then ps[right] else Point(0, 0);
    Neighbourhood(
      existsLeft,
      if existsLeft then left - 1 else left,
      l,
      existsLeft && IsMaximum(if 1 < left then ps[left - 2] else l,
                              l,
                              if |mid| == 1 then mid[0] else if existsRight then r else l),
      existsLeft && LocalMaxAt(ps, left - 1),
      existsRight,
      right,
      r,
      existsRight && IsMaximum(if |mid| == 1 then mid[0] else if existsLeft then l else r,
                               r,
                               if right + 1 < |ps| then ps[right + 1] else r),
      existsRight && LocalMaxAt(ps, right))
  }

  /** `is_max_new`: the new point compared with the neighbours it will have, a missing
      one replaced by the new point itself. */
  predicate NewPointQualifies(c: Neighbourhood, n: Point): (b: bool)
    ensures b <==> (c.existsLeft ==> c.leftPoint.value <= n.value)
                   && (c.existsRight ==> c.rightPoint.value <= n.value)
  {
    IsMaximum(if c.existsLeft then c.leftPoint else n, n, if c.existsRight then c.rightPoint else n)
  }

  /** The classification is the truth about the spliced sequence: each neighbour's
      `isMax…` flag, and the new point's test, say whether it is a local maximum once
      the positions are replaced, and each `isIn…` flag whether it is one now. */
  lemma ClassifyMeaning(ps: seq<Point>, k: nat, r: nat, mid: seq<Point>)
    requires StrictlySorted(ByArg, ps) && k <= r <= |ps| && |mid| <= 1
    ensures var c := Classify(ps, k, r, mid);
      var qs := ps[..k] + mid + ps[r..];
      (c.existsLeft <==> 0 < k)
      && (c.existsLeft ==>
            c.leftPoint == ps[k - 1] && c.left == k - 1
            && c.isMaxLeft == LocalMaxAt(qs, k - 1)
            && (c.isInLeft <==> ps[k - 1] in LocalMaxima(ps)))
      && (c.existsRight <==> r < |ps|)
      && (c.existsRight ==>
            c.rightPoint == ps[r] && c.right == r
            && c.isMaxRight == LocalMaxAt(qs, k + |mid|)
            && (c.isInRight <==> ps[r] in LocalMaxima(ps)))
      && (|mid| == 1 ==> NewPointQualifies(c, mid[0]) == LocalMaxAt(qs, k))
  {
    ClassifyLeft(ps, k, r, mid);
    ClassifyRight(ps, k, r, mid);
    ClassifyNew(ps, k, r, mid);
  }

  /** `ClassifyMeaning` for the left neighbour. */
  lemma ClassifyLeft(ps: seq<Point>, k: nat, r: nat, mid: seq<Point>)
    requires StrictlySorted(ByArg, ps) && k <= r <= |ps| && |mid| <= 1
    ensures var c := Classify(ps, k, r, mid);
      var qs := ps[..k] + mid + ps[r..];
      (c.existsLeft <==> 0 < k)
      && (c.existsLeft ==>
            c.leftPoint == ps[k - 1] && c.left == k - 1
            && c.isMaxLeft == LocalMaxAt(qs, k - 1)
            && (c.isInLeft <==> ps[k - 1] in LocalMaxima(ps)))
  {
    var qs := ps[..k] + mid + ps[r..];
    if 0 < k {
      assert 1 < k ==> qs[k - 2] == ps[k - 2];
      assert qs[k - 1] == ps[k - 1];
      assert |mid| == 1 ==> qs[k] == mid[0];
      assert |mid| == 0 && r < |ps| ==> qs[k] == ps[r];
      MaximumIffLocal(ps, k - 1);
    }
  }

  /** `ClassifyMeaning` for the right neighbour. */
  lemma ClassifyRight(ps: seq<Point>, k: nat, r: nat, mid: seq<Point>)
    requires StrictlySorted(ByArg, ps) && k <= r <= |ps| && |mid| <= 1
    ensures var c := Classify(ps, k, r, mid);
      var qs := ps[..k] + mid + ps[r..];
      (c.existsRight <==> r < |ps|)
      && (c.existsRight ==>
            c.rightPoint == ps[r] && c.right == r
            && c.isMaxRight == LocalMaxAt(qs, k + |mid|)
            && (c.isInRight <==> ps[r] in LocalMaxima(ps)))
  {
    var qs := ps[..k] + mid + ps[r..];
    if r < |ps| {
      var j := k + |mid|;
      assert |qs| == j + |ps| - r;
      assert qs[j] == ps[r];
      assert j + 1 < |qs| ==> qs[j + 1] == ps[r + 1];
      assert 0 < j ==> qs[j - 1] == if |mid| == 1 then mid[0] else ps[k - 1];
      MaximumIffLocal(ps, r);
    }
  }

  /** `ClassifyMeaning` for the new point. */
  lemma ClassifyNew(ps: seq<Point>, k: nat, r: nat, mid: seq<Point>)
    requires k <= r <= |ps| && |mid| <= 1
    ensures var c := Classify(ps, k, r, mid);
      |mid| == 1 ==> NewPointQualifies(c, mid[0]) == LocalMaxAt(ps[..k] + mid + ps[r..], k)
  {
    var qs := ps[..k] + mid + ps[r..];
    if |mid| == 1 {
      assert qs[k] == mid[0];
      assert 0 < k ==> qs[k - 1] == ps[k - 1];
      assert r < |ps| ==> qs[k + 1] == ps[r];
    }
  }


  /** The neighbours a mutation inserts into the maxima index: those that qualify and
      are missing. */
  function StagedNeighbours(c: Neighbourhood): multiset<Point> {
    (if c.existsLeft && c.isMaxLeft && !c.isInLeft then multiset{c.leftPoint} else multiset{})
    + (if c.existsRight && c.isMaxRight && !c.isInRight then multiset{c.rightPoint} else multiset{})
  }

  /** The neighbours a mutation erases from the maxima index: those that are present and
      no longer qualify. */
  function StaleNeighbours(c: Neighbourhood): multiset<Point> {
    (if c.existsLeft && !c.isMaxLeft && c.isInLeft then multiset{c.leftPoint} else multiset{})
    + (if c.existsRight && !c.isMaxRight && c.isInRight then multiset{c.rightPoint} else multiset{})
  }

  /** What a mutation adds to the maxima index: the staged neighbours, and the new
      point `n` when it qualifies. */
  function Promotions(c: Neighbourhood, isMaxNew: bool, n: Point): multiset<Point> {
    StagedNeighbours(c) + (if isMaxNew then multiset{n} else multiset{})
  }

  /** What a mutation removes from the maxima index: the stale neighbours, and the
      replaced point `o` when it was indexed. */
  function Demotions(c: Neighbourhood, isInOld: bool, o: Point): multiset<Point> {
    StaleNeighbours(c) + (if isInOld then multiset{o} else multiset{})
  }

  /** The counting argument a splice rests on, stated on a classification alone: when
      the flags are truthful about whether `x` is a local maximum before the change
      (`wasMax`) and after it (`isMax`), the neighbours, the old point `o` and the new
      point `n` are distinct (except that `n` may equal `o`), and every other point keeps
      its status, then the count of `x` goes from its count before, plus its promotions,
      to its count after, plus its demotions. When `n` equals `o` it is briefly counted
      twice. */
  lemma ExchangeCount(c: Neighbourhood, hasNew: bool, n: Point, isMaxNew: bool,
                      hasOld: bool, o: Point, isInOld: bool,
                      x: Point, before: set<Point>, after: set<Point>)
    requires isMaxNew ==> hasNew
    requires isInOld ==> hasOld
    requires (c.existsLeft ==> (c.leftPoint in before <==> c.isInLeft))
      && (c.existsRight ==> (c.rightPoint in before <==> c.isInRight))
      && (hasOld ==> (o in before <==> isInOld))
      && (x in after <==>
           (x in before && (c.existsLeft ==> x != c.leftPoint) && (c.existsRight ==> x != c.rightPoint)
              && (hasOld ==> x != o) && (hasNew ==> x != n))
           || (c.existsLeft && x == c.leftPoint && c.isMaxLeft)
           || (isMaxNew && x == n)
           || (c.existsRight && x == c.rightPoint && c.isMaxRight))
    requires (c.existsLeft && c.existsRight ==> c.leftPoint != c.rightPoint)
      && (c.existsLeft ==> (hasNew ==> c.leftPoint != n) && (hasOld ==> c.leftPoint != o))
      && (c.existsRight ==> (hasNew ==> c.rightPoint != n) && (hasOld ==> c.rightPoint != o))
      && (hasNew && n in before ==> hasOld && n == o)
    ensures (if x in before then 1 else 0)
            + (if c.existsLeft && c.isMaxLeft && !c.isInLeft && x == c.leftPoint then 1 else 0)
            + (if c.existsRight && c.isMaxRight && !c.isInRight && x == c.rightPoint then 1 else 0)
            + (if isMaxNew && x == n then 1 else 0)
            == (if x in after then 1 else 0)
            + (if c.existsLeft && !c.isMaxLeft && c.isInLeft && x == c.leftPoint then 1 else 0)
            + (if c.existsRight && !c.isMaxRight && c.isInRight && x == c.rightPoint then 1 else 0)
            + (if isInOld && x == o then 1 else 0)
  {
    if c.existsLeft && x == c.leftPoint {
    } else if c.existsRight && x == c.rightPoint {
    } else if hasNew && x == n {
    } else if hasOld && x == o {
    }
  }

  /** The same argument for every point at once: the maxima index, with the promotions
      added and the demotions taken away, is `after`; every demotion is there to take. */
  lemma Exchange(c: Neighbourhood, hasNew: bool, n: Point, isMaxNew: bool,
                 hasOld: bool, o: Point, isInOld: bool, before: set<Point>, after: set<Point>)
    requires isMaxNew ==> hasNew
    requires isInOld ==> hasOld
    requires (c.existsLeft ==> (c.leftPoint in before <==> c.isInLeft))
      && (c.existsRight ==> (c.rightPoint in before <==> c.isInRight))
      && (hasOld ==> (o in before <==> isInOld))
    requires forall x :: x in after <==>
           (x in before && (c.existsLeft ==> x != c.leftPoint) && (c.existsRight ==> x != c.rightPoint)
              && (hasOld ==> x != o) && (hasNew ==> x != n))
           || (c.existsLeft && x == c.leftPoint && c.isMaxLeft)
           || (isMaxNew && x == n)
           || (c.existsRight && x == c.rightPoint && c.isMaxRight)
    requires (c.existsLeft && c.existsRight ==> c.leftPoint != c.rightPoint)
      && (c.existsLeft ==> (hasNew ==> c.leftPoint != n) && (hasOld ==> c.leftPoint != o))
      && (c.existsRight ==> (hasNew ==> c.rightPoint != n) && (hasOld ==> c.rightPoint != o))
      && (hasNew && n in before ==> hasOld && n == o)
    ensures var M := multiset(before) + Promotions(c, isMaxNew, n);
      Demotions(c, isInOld, o) <= M && M - Demotions(c, isInOld, o) == multiset(after)
  {
    var M := multiset(before) + Promotions(c, isMaxNew, n);
    var D := Demotions(c, isInOld, o);
    forall x
      ensures D[x] <= M[x] && (M - D)[x] == multiset(after)[x]
    {
      PromotionsCount(c, isMaxNew, n, x);
      DemotionsCount(c, isInOld, o, x);
      ExchangePoint(c, hasNew, n, isMaxNew, hasOld, o, isInOld, x, before, after,
                    Promotions(c, isMaxNew, n), D);
    }
    Pointwise(M, D, multiset(after));
  }

  /** Multisets that agree point by point are equal. */
  lemma Pointwise(M: multiset<Point>, D: multiset<Point>, A: multiset<Point>)
    requires forall x :: D[x] <= M[x] && (M - D)[x] == A[x]
    ensures D <= M && M - D == A
  {
  }

  /** The count of one point `x` across the exchange. */
  lemma ExchangePoint(c: Neighbourhood, hasNew: bool, n: Point, isMaxNew: bool,
                      hasOld: bool, o: Point, isInOld: bool,
                      x: Point, before: set<Point>, after: set<Point>, P: multiset<Point>, D: multiset<Point>)
    requires isMaxNew ==> hasNew
    requires isInOld ==> hasOld
    requires (c.existsLeft ==> (c.leftPoint in before <==> c.isInLeft))
      && (c.existsRight ==> (c.rightPoint in before <==> c.isInRight))
      && (hasOld ==> (o in before <==> isInOld))
      && (x in after <==>
           (x in before && (c.existsLeft ==> x != c.leftPoint) && (c.existsRight ==> x != c.rightPoint)
              && (hasOld ==> x != o) && (hasNew ==> x != n))
           || (c.existsLeft && x == c.leftPoint && c.isMaxLeft)
           || (isMaxNew && x == n)
           || (c.existsRight && x == c.rightPoint && c.isMaxRight))
    requires (c.existsLeft && c.existsRight ==> c.leftPoint != c.rightPoint)
      && (c.existsLeft ==> (hasNew ==> c.leftPoint != n) && (hasOld ==> c.leftPoint != o))
      && (c.existsRight ==> (hasNew ==> c.rightPoint != n) && (hasOld ==> c.rightPoint != o))
      && (hasNew && n in before ==> hasOld && n == o)
    requires P[x]
      == (if c.existsLeft && c.isMaxLeft && !c.isInLeft && x == c.leftPoint then 1 else 0)
       + (if c.existsRight && c.isMaxRight && !c.isInRight && x == c.rightPoint then 1 else 0)
       + (if isMaxNew && x == n then 1 else 0)
    requires D[x]
      == (if c.existsLeft && !c.isMaxLeft && c.isInLeft && x == c.leftPoint then 1 else 0)
       + (if c.existsRight && !c.isMaxRight && c.isInRight && x == c.rightPoint then 1 else 0)
       + (if isInOld && x == o then 1 else 0)
    ensures var M := multiset(before) + P;
      D[x] <= M[x] && (M - D)[x] == multiset(after)[x]
  {
    ExchangeCount(c, hasNew, n, isMaxNew, hasOld, o, isInOld, x, before, after);
    assert multiset(before)[x] == if x in before then 1 else 0;
    assert multiset(after)[x] == if x in after then 1 else 0;
  }

  /** How often `x` is promoted: once per neighbour it is, and once if it is the new
      point and qualifies. */
  lemma PromotionsCount(c: Neighbourhood, isMaxNew: bool, n: Point, x: Point)
    ensures Promotions(c, isMaxNew, n)[x]
      == (if c.existsLeft && c.isMaxLeft && !c.isInLeft && x == c.leftPoint then 1 else 0)
       + (if c.existsRight && c.isMaxRight && !c.isInRight && x == c.rightPoint then 1 else 0)
       + (if isMaxNew && x == n then 1 else 0)
  {
    StagedCount(c, x);
  }

  /** How often `x` is demoted: once per neighbour it is, and once if it is the
      replaced point and was indexed. */
  lemma DemotionsCount(c: Neighbourhood, isInOld: bool, o: Point, x: Point)
    ensures Demotions(c, isInOld, o)[x]
      == (if c.existsLeft && !c.isMaxLeft && c.isInLeft && x == c.leftPoint then 1 else 0)
       + (if c.existsRight && !c.isMaxRight && c.isInRight && x == c.rightPoint then 1 else 0)
       + (if isInOld && x == o then 1 else 0)
  {
    StaleCount(c, x);
  }

  /** How often `x` is staged: once per neighbour it is. */
  lemma StagedCount(c: Neighbourhood, x: Point)
    ensures StagedNeighbours(c)[x]
      == (if c.existsLeft && c.isMaxLeft && !c.isInLeft && x == c.leftPoint then 1 else 0)
       + (if c.existsRight && c.isMaxRight && !c.isInRight && x == c.rightPoint then 1 else 0)
  {
  }

  /** How often `x` is stale: once per neighbour it is. */
  lemma StaleCount(c: Neighbourhood, x: Point)
    ensures StaleNeighbours(c)[x]
      == (if c.existsLeft && !c.isMaxLeft && c.isInLeft && x == c.leftPoint then 1 else 0)
       + (if c.existsRight && !c.isMaxRight && c.isInRight && x == c.rightPoint then 1 else 0)
  {
  }

  /** A new point whose argument lies strictly between its neighbours' is in the old
      function only as the point it replaces. */
  lemma NewPointPlace(ps: seq<Point>, k: nat, r: nat, n: Point)
    requires StrictlySorted(ByArg, ps) && k <= r <= |ps| && r <= k + 1
    requires 0 < k ==> ps[k - 1].arg < n.arg
    requires r < |ps| ==> n.arg < ps[r].arg
    requires n in ps
    ensures r == k + 1 && ps[k] == n
  {
    var i :| 0 <= i < |ps| && ps[i] == n;
    forall j | 0 <= j < k - 1
      ensures ps[j].arg < n.arg
    {
      assert Less(ByArg, ps[j], ps[k - 1]);
    }
    forall j | r < j < |ps|
      ensures n.arg < ps[j].arg
    {
      assert Less(ByArg, ps[r], ps[j]);
    }
  }

  /** The classification of a splice is truthful: the `isIn…` flags and the old point's
      status say what is a local maximum now, and membership afterwards is decided by
      the flags, as `ExchangeCount` needs. */
  lemma SpliceTruthful(ps: seq<Point>, k: nat, r: nat, mid: seq<Point>, x: Point)
    requires StrictlySorted(ByArg, ps) && k <= r <= |ps| && r <= k + 1 && |mid| <= 1
    requires |mid| == 1 && 0 < k ==> ps[k - 1].arg < mid[0].arg
    requires |mid| == 1 && r < |ps| ==> mid[0].arg < ps[r].arg
    ensures var c := Classify(ps, k, r, mid);
      var before, after := LocalMaxima(ps), LocalMaxima(ps[..k] + mid + ps[r..]);
      var n := if |mid| == 1 then mid[0] else Point(0, 0);
      var o := if k < r then ps[k] else Point(0, 0);
      (c.existsLeft ==> (c.leftPoint in before <==> c.isInLeft))
      && (c.existsRight ==> (c.rightPoint in before <==> c.isInRight))
      && (k < r ==> (o in before <==> k < r && LocalMaxAt(ps, k)))
      && (x in after <==>
           (x in before && (c.existsLeft ==> x != c.leftPoint) && (c.existsRight ==> x != c.rightPoint)
              && (k < r ==> x != o) && (|mid| == 1 ==> x != n))
           || (c.existsLeft && x == c.leftPoint && c.isMaxLeft)
           || (|mid| == 1 && NewPointQualifies(c, n) && x == n)
           || (c.existsRight && x == c.rightPoint && c.isMaxRight))
  {
    ClassifyMeaning(ps, k, r, mid);
    SpliceMembership(ps, k, r, mid, x);
    if k < r {
      MaximumIffLocal(ps, k);
    }
  }

  /** `SpliceTruthful` for every point at once. */
  lemma SpliceAllTruthful(ps: seq<Point>, k: nat, r: nat, mid: seq<Point>)
    requires StrictlySorted(ByArg, ps) && k <= r <= |ps| && r <= k + 1 && |mid| <= 1
    requires |mid| == 1 && 0 < k ==> ps[k - 1].arg < mid[0].arg
    requires |mid| == 1 && r < |ps| ==> mid[0].arg < ps[r].arg
    ensures var c := Classify(ps, k, r, mid);
      var before, after := LocalMaxima(ps), LocalMaxima(ps[..k] + mid + ps[r..]);
      var n := if |mid| == 1 then mid[0] else Point(0, 0);
      var o := if k < r then ps[k] else Point(0, 0);
      (c.existsLeft ==> (c.leftPoint in before <==> c.isInLeft))
      && (c.existsRight ==> (c.rightPoint in before <==> c.isInRight))
      && (k < r ==> (o in before <==> k < r && LocalMaxAt(ps, k)))
      && (forall x :: x in after <==>
           (x in before && (c.existsLeft ==> x != c.leftPoint) && (c.existsRight ==> x != c.rightPoint)
              && (k < r ==> x != o) && (|mid| == 1 ==> x != n))
           || (c.existsLeft && x == c.leftPoint && c.isMaxLeft)
           || (|mid| == 1 && NewPointQualifies(c, n) && x == n)
           || (c.existsRight && x == c.rightPoint && c.isMaxRight))
  {
    SpliceTruthful(ps, k, r, mid, Point(0, 0));
    forall x
      ensures var c := Classify(ps, k, r, mid);
        var before, after := LocalMaxima(ps), LocalMaxima(ps[..k] + mid + ps[r..]);
        var n := if |mid| == 1 then mid[0] else Point(0, 0);
        var o := if k < r then ps[k] else Point(0, 0);
        x in after <==>
          (x in before && (c.existsLeft ==> x != c.leftPoint) && (c.existsRight ==> x != c.rightPoint)
             && (k < r ==> x != o) && (|mid| == 1 ==> x != n))
          || (c.existsLeft && x == c.leftPoint && c.isMaxLeft)
          || (|mid| == 1 && NewPointQualifies(c, n) && x == n)
          || (c.existsRight && x == c.rightPoint && c.isMaxRight)
    {
      SpliceTruthful(ps, k, r, mid, x);
    }
  }

  /** The points around a splice are distinct, except that the new point may equal the
      one it replaces, and it is in the old local maxima only as that point. */
  lemma SpliceDistinct(ps: seq<Point>, k: nat, r: nat, mid: seq<Point>)
    requires StrictlySorted(ByArg, ps) && k <= r <= |ps| && r <= k + 1 && |mid| <= 1
    requires |mid| == 1 && 0 < k ==> ps[k - 1].arg < mid[0].arg
    requires |mid| == 1 && r < |ps| ==> mid[0].arg < ps[r].arg
    ensures var c := Classify(ps, k, r, mid);
      var n := if |mid| == 1 then mid[0] else Point(0, 0);
      var o := if k < r then ps[k] else Point(0, 0);
      (c.existsLeft && c.existsRight ==> c.leftPoint != c.rightPoint)
      && (c.existsLeft ==> (|mid| == 1 ==> c.leftPoint != n) && (k < r ==> c.leftPoint != o))
      && (c.existsRight ==> (|mid| == 1 ==> c.rightPoint != n) && (k < r ==> c.rightPoint != o))
      && (|mid| == 1 && n in LocalMaxima(ps) ==> k < r && n == o)
  {
    assert 0 < k && r < |ps| ==> Less(ByArg, ps[k - 1], ps[r]);
    assert 0 < k && k < r ==> Less(ByArg, ps[k - 1], ps[k]);
    assert k < r && r < |ps| ==> Less(ByArg, ps[k], ps[r]);
    if |mid| == 1 && mid[0] in LocalMaxima(ps) {
      MaximaInDomain(ps);
      NewPointPlace(ps, k, r, mid[0]);
    }
  }

  /** Promoting and demoting exactly those points turns the local maxima of the old
      sequence into the local maxima of the spliced one, and every demoted point is
      indexed before it is demoted. */
  lemma SpliceMaxima(ps: seq<Point>, k: nat, r: nat, mid: seq<Point>)
    requires StrictlySorted(ByArg, ps) && k <= r <= |ps| && r <= k + 1 && |mid| <= 1
    requires |mid| == 1 && 0 < k ==> ps[k - 1].arg < mid[0].arg
    requires |mid| == 1 && r < |ps| ==> mid[0].arg < ps[r].arg
    ensures var c := Classify(ps, k, r, mid);
      var n := if |mid| == 1 then mid[0] else Point(0, 0);
      var o := if k < r then ps[k] else Point(0, 0);
      var M := multiset(LocalMaxima(ps)) + Promotions(c, |mid| == 1 && NewPointQualifies(c, n), n);
      var D := Demotions(c, k < r && LocalMaxAt(ps, k), o);
      D <= M && M - D == multiset(LocalMaxima(ps[..k] + mid + ps[r..]))
  {
    var c := Classify(ps, k, r, mid);
    var n := if |mid| == 1 then mid[0] else Point(0, 0);
    var o := if k < r then ps[k] else Point(0, 0);
    var before, after := LocalMaxima(ps), LocalMaxima(ps[..k] + mid + ps[r..]);
    SpliceDistinct(ps, k, r, mid);
    SpliceAllTruthful(ps, k, r, mid);
    Exchange(c, |mid| == 1, n, |mid| == 1 && NewPointQualifies(c, n), k < r, o, k < r && LocalMaxAt(ps, k),
             before, after);
  }

  /** Where `set_value(a, v)` works: the lower bound `k` of `a`, its upper bound `r`
      (`k + 1` when `a` had a point, at `k`, which `find` returns), the left neighbour at
      `k - 1` and the right neighbour at `r`; the result is the old function with
      positions `k` up to `r` replaced by the new point. */
  lemma SetValueShape(ps: seq<Point>, a: int, v: int)
    requires StrictlySorted(ByArg, ps)
    ensures var n := Point(a, v);
      var k := LowerBound(ByArg, ps, n);
      var r := UpperBound(ByArg, ps, n);
      var f := Find(ByArg, ps, n);
      k <= r <= k + 1 && r <= |ps|
      && (f < |ps| <==> r == k + 1) && (f < |ps| ==> f == k)
      && (r == k + 1 <==> Lookup(ps, a).Some?)
      && (r == k + 1 ==> ps[k].arg == a)
      && Assign(ps, a, v) == ps[..k] + [n] + ps[r..]
      && (0 < k ==> ps[k - 1].arg < a)
      && (r < |ps| ==> a < ps[r].arg)
  {
    var n := Point(a, v);
    AssignSplice(ps, a, v);
    FindByArg(ps, a, v);
    StrictlySortedIsSorted(ByArg, ps);
    BoundsInSorted(ByArg, ps, n);
  }

  /** The neighbourhood `set_value(a, v)` computes on `ps`. */
  function SetValueNeighbours(ps: seq<Point>, a: int, v: int): Neighbourhood
    requires StrictlySorted(ByArg, ps)
  {
    var n := Point(a, v);
    StrictlySortedIsSorted(ByArg, ps);
    BoundsInSorted(ByArg, ps, n);
    Classify(ps, LowerBound(ByArg, ps, n), UpperBound(ByArg, ps, n), [n])
  }

  /** The points `set_value(a, v)` must add to the maxima index of `ps`. */
  function SetValuePromoted(ps: seq<Point>, a: int, v: int): multiset<Point>
    requires StrictlySorted(ByArg, ps)
  {
    var c := SetValueNeighbours(ps, a, v);
    Promotions(c, NewPointQualifies(c, Point(a, v)), Point(a, v))
  }

  /** The points `set_value(a, v)` must take out of the maxima index of `ps`. */
  function SetValueDemoted(ps: seq<Point>, a: int, v: int): multiset<Point>
    requires StrictlySorted(ByArg, ps)
  {
    var n := Point(a, v);
    var k := LowerBound(ByArg, ps, n);
    var r := UpperBound(ByArg, ps, n);
    StrictlySortedIsSorted(ByArg, ps);
    BoundsInSorted(ByArg, ps, n);
    Demotions(SetValueNeighbours(ps, a, v), k < r && LocalMaxAt(ps, k), if k < r then ps[k] else Point(0, 0))
  }

  /** The number of inserts `set_value(a, v)` attempts: one per promoted point, and the
      new point into the domain index. */
  function SetValueInserts(ps: seq<Point>, a: int, v: int): nat
    requires StrictlySorted(ByArg, ps)
  {
    |SetValuePromoted(ps, a, v)| + 1
  }

  /** Promoting and demoting exactly those points turns the local maxima of the old
      function into the local maxima of the function after `f(a) = v`. */
  lemma SetValueMaxima(ps: seq<Point>, a: int, v: int)
    requires StrictlySorted(ByArg, ps)
    ensures var M := multiset(LocalMaxima(ps)) + SetValuePromoted(ps, a, v);
      SetValueDemoted(ps, a, v) <= M
      && M - SetValueDemoted(ps, a, v) == multiset(LocalMaxima(Assign(ps, a, v)))
  {
    var n := Point(a, v);
    var k, r := LowerBound(ByArg, ps, n), UpperBound(ByArg, ps, n);
    SetValueShape(ps, a, v);
    SpliceMaxima(ps, k, r, [n]);
    assert [n][0] == n;
  }

  /** Inserting the new point into the domain index and then dropping `a`'s old point,
      if any, gives the new function. */
  lemma SetValueInsert(ps: seq<Point>, a: int, v: int)
    requires StrictlySorted(ByArg, ps)
    ensures var n := Point(a, v);
      var k := LowerBound(ByArg, ps, n);
      var r := UpperBound(ByArg, ps, n);
      var I := Insert(ByArg, ps, n);
      (r == k ==> I == Assign(ps, a, v))
      && (r == k + 1 ==> I[..k] + I[k + 1..] == Assign(ps, a, v))
  {
    var n := Point(a, v);
    var k, r := LowerBound(ByArg, ps, n), UpperBound(ByArg, ps, n);
    AssignSplice(ps, a, v);
    if r == k + 1 {
      DropBeforeInserted(ps, k, n);
    }
  }

  /** Inserting `n` after position `k` and then dropping position `k` replaces the
      point at `k` by `n`. */
  lemma DropBeforeInserted(ps: seq<Point>, k: nat, n: Point)
    requires k < |ps|
    ensures var I := ps[..k + 1] + [n] + ps[k + 1..];
      I[..k] + I[k + 1..] == ps[..k] + [n] + ps[k + 1..]
  {
    var I := ps[..k + 1] + [n] + ps[k + 1..];
    assert I[..k] == ps[..k];
    assert I[k + 1..] == [n] + ps[k + 1..];
  }

  /** `find` compares arguments only, so the value of its search key does not matter. */
  lemma {:induction false} FindIgnoresValue(ps: seq<Point>, a: int, v: int, w: int)
    ensures LowerBound(ByArg, ps, Point(a, v)) == LowerBound(ByArg, ps, Point(a, w))
    ensures Find(ByArg, ps, Point(a, v)) == Find(ByArg, ps, Point(a, w))
  {
    if ps != [] {
      FindIgnoresValue(ps[1..], a, v, w);
    }
  }

  /** In a strictly sorted domain index the upper bound of a point is just past it. */
  lemma UpperBoundOfPoint(ps: seq<Point>, k: nat)
    requires StrictlySorted(ByArg, ps) && k < |ps|
    ensures UpperBound(ByArg, ps, ps[k]) == k + 1
  {
    forall j | 0 <= j < k
      ensures !Less(ByArg, ps[k], ps[j])
    {
      assert Less(ByArg, ps[j], ps[k]);
    }
    assert k + 1 < |ps| ==> Less(ByArg, ps[k], ps[k + 1]);
  }

  /** The points `erase(a)` must add to the maxima index of `ps`. */
  function ErasePromoted(ps: seq<Point>, a: int): multiset<Point> {
    var k := Find(ByArg, ps, Point(a, 0));
    if k < |ps| then StagedNeighbours(Classify(ps, k, k + 1, [])) else multiset{}
  }

  /** The points `erase(a)` must take out of the maxima index of `ps`. */
  function EraseDemoted(ps: seq<Point>, a: int): multiset<Point> {
    var k := Find(ByArg, ps, Point(a, 0));
    if k < |ps| then Demotions(Classify(ps, k, k + 1, []), LocalMaxAt(ps, k), ps[k]) else multiset{}
  }

  /** The number of inserts `erase(a)` attempts: one per promoted neighbour. */
  function EraseInserts(ps: seq<Point>, a: int): nat {
    |ErasePromoted(ps, a)|
  }

  /** Promoting and demoting exactly those points turns the local maxima of the old
      function into the local maxima of the function without `a`. */
  lemma EraseMaxima(ps: seq<Point>, a: int)
    requires StrictlySorted(ByArg, ps)
    ensures var M := multiset(LocalMaxima(ps)) + ErasePromoted(ps, a);
      EraseDemoted(ps, a) <= M
      && M - EraseDemoted(ps, a) == multiset(LocalMaxima(Remove(ps, a)))
  {
    var k := Find(ByArg, ps, Point(a, 0));
    RemoveSplice(ps, a, 0);
    if k < |ps| {
      SpliceMaxima(ps, k, k + 1, []);
      SpliceWithoutNew(ps, k, k + 1, []);
    }
  }

  /** Dropping the point at `k`: promoting the staged neighbours and demoting the stale
      ones and the dropped point, when it was a local maximum, gives the local maxima of
      what is left. */
  lemma DropMaxima(ps: seq<Point>, k: nat)
    requires StrictlySorted(ByArg, ps) && k < |ps|
    ensures var c := Classify(ps, k, k + 1, []);
      var M := multiset(LocalMaxima(ps)) + StagedNeighbours(c);
      var D := Demotions(c, LocalMaxAt(ps, k), ps[k]);
      D <= M && M - D == multiset(LocalMaxima(ps[..k] + ps[k + 1..]))
  {
    SpliceMaxima(ps, k, k + 1, []);
    SpliceWithoutNew(ps, k, k + 1, []);
  }

  /** A splice that drops the point at `k` and adds none: it promotes only neighbours,
      demotes the dropped point when it was a local maximum, and leaves the rest. */
  lemma SpliceWithoutNew(ps: seq<Point>, k: nat, r: nat, mid: seq<Point>)
    requires k < r == k + 1 <= |ps| && |mid| <= 1
    ensures var c := Classify(ps, k, r, mid);
      var n := if |mid| == 1 then mid[0] else Point(0, 0);
      var o := if k < r then ps[k] else Point(0, 0);
      mid == [] ==>
        Promotions(c, |mid| == 1 && NewPointQualifies(c, n), n) == StagedNeighbours(c)
        && Demotions(c, k < r && LocalMaxAt(ps, k), o) == Demotions(c, LocalMaxAt(ps, k), ps[k])
        && ps[..k] + mid + ps[r..] == ps[..k] + ps[k + 1..]
  {
  }
}
