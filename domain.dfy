/** What a FunctionMaxima means: a finite function kept as a sequence of points in
    ascending argument order, and the set of its local maxima. The mutations of the
    class are proved against `Assign` and `Remove` here. */
module Domain {
  import opened Points
  import opened OrderedMultiset

  datatype Option<T> = None | Some(value: T)

  /** The value of the function at `a`, if `a` is in its domain. */
  function Lookup(ps: seq<Point>, a: int): (r: Option<int>)
    ensures r.Some? <==> exists i :: 0 <= i < |ps| && ps[i].arg == a
    ensures r.Some? ==> Point(a, r.value) in ps
  {
    if ps == [] then None
    else if ps[0].arg == a then Some(ps[0].value)
    else
      assert forall i :: 1 <= i < |ps| ==> ps[i] == ps[1..][i - 1];
      Lookup(ps[1..], a)
  }

  /** The domain: the arguments the function is defined at. */
  function Args(ps: seq<Point>): set<int> {
    set p | p in ps :: p.arg
  }

  /** The function after `f(a) = v`: the point for `a` is replaced, or added in order. */
  function Assign(ps: seq<Point>, a: int, v: int): seq<Point> {
    if ps == [] || a < ps[0].arg then [Point(a, v)] + ps
    else if a == ps[0].arg then [Point(a, v)] + ps[1..]
    else [ps[0]] + Assign(ps[1..], a, v)
  }

  /** The function with `a` taken out of its domain; unchanged if `a` is not in it. */
  function Remove(ps: seq<Point>, a: int): seq<Point> {
    if ps == [] then []
    else if ps[0].arg == a then ps[1..]
    else [ps[0]] + Remove(ps[1..], a)
  }

  /** After `f(a) = v` the function is `v` at `a` and unchanged everywhere else. */
  lemma {:induction false} AssignLookup(ps: seq<Point>, a: int, v: int, b: int)
    ensures Lookup(Assign(ps, a, v), b) == if b == a then Some(v) else Lookup(ps, b)
  {
    if ps == [] || a < ps[0].arg {
    } else if a == ps[0].arg {
      assert Assign(ps, a, v)[1..] == ps[1..];
    } else {
      AssignLookup(ps[1..], a, v, b);
      assert Assign(ps, a, v)[1..] == Assign(ps[1..], a, v);
    }
  }

  /** Assigning keeps the arguments strictly increasing. */
  lemma {:induction false} AssignSorted(ps: seq<Point>, a: int, v: int)
    requires StrictlySorted(ByArg, ps)
    ensures StrictlySorted(ByArg, Assign(ps, a, v))
    ensures |ps| > 0 ==> Assign(ps, a, v)[0].arg == if a < ps[0].arg then a else ps[0].arg
  {
    if ps == [] || a < ps[0].arg {
    } else if a == ps[0].arg {
    } else {
      AssignSorted(ps[1..], a, v);
      var t := Assign(ps[1..], a, v);
      assert Assign(ps, a, v) == [ps[0]] + t;
      forall j | 0 <= j < |t|
        ensures ps[0].arg < t[j].arg
      {
        if |ps| > 1 {
          assert t[0].arg == if a < ps[1].arg then a else ps[1].arg;
        }
      }
    }
  }

  /** The domain grows by one exactly when `a` was not in it. */
  lemma {:induction false} AssignSize(ps: seq<Point>, a: int, v: int)
    requires StrictlySorted(ByArg, ps)
    ensures |Assign(ps, a, v)| == |ps| + (if Lookup(ps, a).None? then 1 else 0)
  {
    if ps == [] || a < ps[0].arg {
      assert Lookup(ps, a).None?;
    } else if a == ps[0].arg {
    } else {
      AssignSize(ps[1..], a, v);
    }
  }

  /** In a strictly ordered domain `f(a) = v` replaces the positions between the lower
      and the upper bound of `a` (the old point, if any) with the new point. */
  lemma {:induction false} AssignSplice(ps: seq<Point>, a: int, v: int)
    requires StrictlySorted(ByArg, ps)
    ensures var k := LowerBound(ByArg, ps, Point(a, v));
      var r := UpperBound(ByArg, ps, Point(a, v));
      k <= r <= k + 1
      && (r == k + 1 <==> Lookup(ps, a).Some?)
      && Assign(ps, a, v) == ps[..k] + [Point(a, v)] + ps[r..]
  {
    var N := Point(a, v);
    if ps == [] || a < ps[0].arg {
      assert Lookup(ps, a).None? by {
        if ps != [] {
          assert forall i :: 1 <= i < |ps| ==> Less(ByArg, ps[0], ps[i]);
        }
      }
    } else if a == ps[0].arg {
      assert UpperBound(ByArg, ps, N) == 1 by {
        assert |ps| > 1 ==> Less(ByArg, ps[0], ps[1]);
      }
    } else {
      var t := ps[1..];
      AssignSplice(t, a, v);
      var k := LowerBound(ByArg, t, N);
      var r := UpperBound(ByArg, t, N);
      ConsSplice(ps, k, r, N);
    }
  }

  /** Splicing behind a first element that stays. */
  lemma ConsSplice(ps: seq<Point>, k: nat, r: nat, n: Point)
    requires k <= r < |ps|
    ensures ps[..k + 1] + [n] + ps[r + 1..] == [ps[0]] + (ps[1..][..k] + [n] + ps[1..][r..])
  {
    assert ps[..k + 1] == [ps[0]] + ps[1..][..k];
    assert ps[r + 1..] == ps[1..][r..];
  }

  /** Removing `a` takes it out of the domain and changes nothing else. */
  lemma {:induction false} RemoveLookup(ps: seq<Point>, a: int, b: int)
    requires StrictlySorted(ByArg, ps)
    ensures Lookup(Remove(ps, a), b) == if b == a then None else Lookup(ps, b)
  {
    if ps == [] {
    } else if ps[0].arg == a {
      assert forall i :: 1 <= i < |ps| ==> Less(ByArg, ps[0], ps[i]);
    } else {
      RemoveLookup(ps[1..], a, b);
      assert Remove(ps, a)[1..] == Remove(ps[1..], a);
    }
  }

  /** Removing keeps the arguments strictly increasing; its first argument is one of the old ones. */
  lemma {:induction false} RemoveSorted(ps: seq<Point>, a: int)
    requires StrictlySorted(ByArg, ps)
    ensures StrictlySorted(ByArg, Remove(ps, a))
    ensures |Remove(ps, a)| > 0 ==> Remove(ps, a)[0] in ps
  {
    if ps == [] {
    } else if ps[0].arg == a {
    } else {
      RemoveSorted(ps[1..], a);
      var t := Remove(ps[1..], a);
      assert Remove(ps, a) == [ps[0]] + t;
      forall j | 0 <= j < |t|
        ensures ps[0].arg < t[j].arg
      {
        assert t[0] in ps[1..];
        if j > 0 {
          assert Less(ByArg, t[0], t[j]);
        }
      }
    }
  }

  /** Removing shrinks the domain by one exactly when `a` was in it. */
  lemma {:induction false} RemoveSize(ps: seq<Point>, a: int)
    requires StrictlySorted(ByArg, ps)
    ensures |Remove(ps, a)| == |ps| - (if Lookup(ps, a).Some? then 1 else 0)
  {
    if ps != [] && ps[0].arg != a {
      RemoveSize(ps[1..], a);
    }
  }

  /** In a strictly ordered domain removing `a` drops the one position `find` gives. */
  lemma RemoveSplice(ps: seq<Point>, a: int, v: int)
    requires StrictlySorted(ByArg, ps)
    ensures var k := Find(ByArg, ps, Point(a, v));
      (k < |ps| ==> Remove(ps, a) == ps[..k] + ps[k + 1..])
      && (k == |ps| ==> Remove(ps, a) == ps)
  {
    var k := Find(ByArg, ps, Point(a, v));
    FindByArg(ps, a, v);
    if k < |ps| {
      assert forall i :: 0 <= i < k ==> Less(ByArg, ps[i], ps[k]);
      RemoveFirst(ps, a, k);
    } else {
      RemoveAbsent(ps, a);
    }
  }

  /** Removing drops the first point with argument `a`. */
  lemma {:induction false} RemoveFirst(ps: seq<Point>, a: int, k: nat)
    requires k < |ps| && ps[k].arg == a
    requires forall i :: 0 <= i < k ==> ps[i].arg != a
    ensures Remove(ps, a) == ps[..k] + ps[k + 1..]
  {
    if 0 < k {
      RemoveFirst(ps[1..], a, k - 1);
      assert ps[..k] == [ps[0]] + ps[1..][..k - 1];
      assert ps[k + 1..] == ps[1..][k..];
    }
  }

  /** Removing an argument outside the domain changes nothing. */
  lemma {:induction false} RemoveAbsent(ps: seq<Point>, a: int)
    requires Lookup(ps, a).None?
    ensures Remove(ps, a) == ps
  {
    if ps != [] {
      RemoveAbsent(ps[1..], a);
    }
  }

  /** `find` by argument: in a strictly ordered domain it finds the point for `a`, and
      only the argument of the search key is compared. */
  lemma FindByArg(ps: seq<Point>, a: int, v: int)
    requires StrictlySorted(ByArg, ps)
    ensures var k := Find(ByArg, ps, Point(a, v));
      (k < |ps| <==> Lookup(ps, a).Some?)
      && (k < |ps| ==> ps[k].arg == a && Lookup(ps, a) == Some(ps[k].value))
  {
    var k := Find(ByArg, ps, Point(a, v));
    StrictlySortedIsSorted(ByArg, ps);
    FindInSorted(ByArg, ps, Point(a, v));
    if k < |ps| {
      assert ps[k].arg == a;
      assert forall i :: 0 <= i < |ps| && i != k ==> ps[i].arg != a by {
        assert forall i :: 0 <= i < k ==> Less(ByArg, ps[i], ps[k]);
        assert forall i :: k < i < |ps| ==> Less(ByArg, ps[k], ps[i]);
      }
      assert Point(a, Lookup(ps, a).value) in ps;
    }
  }

  /** In a strictly ordered domain the number of points is the number of arguments. */
  lemma {:induction false} SizeIsDomainSize(ps: seq<Point>)
    requires StrictlySorted(ByArg, ps)
    ensures |Args(ps)| == |ps|
  {
    if ps != [] {
      SizeIsDomainSize(ps[1..]);
      assert Args(ps) == {ps[0].arg} + Args(ps[1..]) by {
        assert ps == [ps[0]] + ps[1..];
      }
      assert ps[0].arg !in Args(ps[1..]) by {
        forall p | p in ps[1..]
          ensures p.arg != ps[0].arg
        {
          var i :| 0 <= i < |ps[1..]| && ps[1..][i] == p;
          assert Less(ByArg, ps[0], ps[i + 1]);
        }
      }
    }
  }

  /** `is_maximum` at position `i`, a missing neighbour replaced by the point itself. */
  predicate LocalMaxAt(ps: seq<Point>, i: nat)
    requires i < |ps|
  {
    IsMaximum(if i > 0 then ps[i - 1] else ps[i], ps[i], if i + 1 < |ps| then ps[i + 1] else ps[i])
  }

  /** The points that belong in the maxima index. */
  function LocalMaxima(ps: seq<Point>): set<Point> {
    set i | 0 <= i < |ps| && LocalMaxAt(ps, i) :: ps[i]
  }

  /** The local maxima outside positions `k - 1` through `r`. */
  function Kept(ps: seq<Point>, k: nat, r: nat): set<Point> {
    set i | 0 <= i < |ps| && (i + 1 < k || r < i) && LocalMaxAt(ps, i) :: ps[i]
  }

  /** In a strictly ordered domain a point is a local maximum exactly when it is not
      below either of its neighbours. */
  lemma MaximumIffLocal(ps: seq<Point>, i: nat)
    requires StrictlySorted(ByArg, ps) && i < |ps|
    ensures ps[i] in LocalMaxima(ps) <==> LocalMaxAt(ps, i)
  {
    if ps[i] in LocalMaxima(ps) {
      var j :| 0 <= j < |ps| && LocalMaxAt(ps, j) && ps[j] == ps[i];
    }
  }

  /** In a strictly ordered domain a point of the function is its own lookup. */
  lemma {:induction false} PointOfArg(ps: seq<Point>, x: Point)
    requires StrictlySorted(ByArg, ps) && x in ps
    ensures Lookup(ps, x.arg) == Some(x.value)
  {
    var i :| 0 <= i < |ps| && ps[i] == x;
    if 0 < i {
      assert Less(ByArg, ps[0], ps[i]);
      assert ps[1..][i - 1] == x;
      PointOfArg(ps[1..], x);
    }
  }

  /** Every local maximum is a point of the function. */
  lemma MaximaInDomain(ps: seq<Point>)
    requires StrictlySorted(ByArg, ps)
    ensures forall x :: x in LocalMaxima(ps) ==> x in ps && Lookup(ps, x.arg) == Some(x.value)
  {
    forall x | x in LocalMaxima(ps)
      ensures x in ps && Lookup(ps, x.arg) == Some(x.value)
    {
      PointOfArg(ps, x);
    }
  }

  /** Only three positions can change their status when positions `k` up to `r` are
      replaced by `mid`: the point before the splice, the point after it, and the new
      point; every other local maximum is kept and no other point becomes one. */
  lemma SpliceLocalMaxima(ps: seq<Point>, k: nat, r: nat, mid: seq<Point>, x: Point)
    requires k <= r <= |ps| && |mid| <= 1
    ensures var qs := ps[..k] + mid + ps[r..];
      x in LocalMaxima(qs) <==>
        x in Kept(ps, k, r)
        || (0 < k && x == qs[k - 1] && LocalMaxAt(qs, k - 1))
        || (|mid| == 1 && x == qs[k] && LocalMaxAt(qs, k))
        || (r < |ps| && x == qs[k + |mid|] && LocalMaxAt(qs, k + |mid|))
  {
    var qs := ps[..k] + mid + ps[r..];
    var d := k + |mid|;
    assert forall i :: 0 <= i < k ==> qs[i] == ps[i];
    assert forall j :: d <= j < |qs| ==> qs[j] == ps[j - d + r];
    SpliceCore(ps, qs, k, r, d, x);
  }

  /** `SpliceLocalMaxima` for any `qs` that agrees with `ps` before position `k` and,
      shifted, from position `r` on. */
  lemma SpliceCore(ps: seq<Point>, qs: seq<Point>, k: nat, r: nat, d: nat, x: Point)
    requires k <= r <= |ps| && k <= d <= k + 1 && |qs| == d + |ps| - r
    requires forall i {:trigger qs[i]} :: 0 <= i < k ==> qs[i] == ps[i]
    requires forall j {:trigger qs[j]} :: d <= j < |qs| ==> qs[j] == ps[j - d + r]
    ensures x in LocalMaxima(qs) <==>
      x in Kept(ps, k, r)
      || (0 < k && x == qs[k - 1] && LocalMaxAt(qs, k - 1))
      || (d == k + 1 && x == qs[k] && LocalMaxAt(qs, k))
      || (r < |ps| && x == qs[d] && LocalMaxAt(qs, d))
  {
    if x in LocalMaxima(qs) {
      var j :| 0 <= j < |qs| && LocalMaxAt(qs, j) && qs[j] == x;
      SpliceFrom(ps, qs, k, r, d, j);
    }
    if x in Kept(ps, k, r) {
      var i :| 0 <= i < |ps| && (i + 1 < k || r < i) && LocalMaxAt(ps, i) && ps[i] == x;
      SpliceTo(ps, qs, k, r, d, i);
    }
    assert 0 < k && LocalMaxAt(qs, k - 1) ==> qs[k - 1] in LocalMaxima(qs);
    assert d == k + 1 && LocalMaxAt(qs, k) ==> qs[k] in LocalMaxima(qs);
    assert r < |ps| && LocalMaxAt(qs, d) ==> qs[d] in LocalMaxima(qs);
  }

  /** A local maximum of the spliced sequence is kept or sits next to the splice. */
  lemma SpliceFrom(ps: seq<Point>, qs: seq<Point>, k: nat, r: nat, d: nat, j: nat)
    requires k <= r <= |ps| && k <= d <= k + 1 && |qs| == d + |ps| - r
    requires forall i {:trigger qs[i]} :: 0 <= i < k ==> qs[i] == ps[i]
    requires forall j {:trigger qs[j]} :: d <= j < |qs| ==> qs[j] == ps[j - d + r]
    requires j < |qs| && LocalMaxAt(qs, j)
    ensures qs[j] in Kept(ps, k, r) || j + 1 == k || (d == k + 1 && j == k) || (r < |ps| && j == d)
  {
    if j + 1 < k {
      SameNeighbourhood(ps, j, qs, j);
    } else if d < j {
      SameNeighbourhood(ps, j - d + r, qs, j);
    }
  }

  /** A local maximum away from the splice stays one. */
  lemma SpliceTo(ps: seq<Point>, qs: seq<Point>, k: nat, r: nat, d: nat, i: nat)
    requires k <= r <= |ps| && k <= d <= k + 1 && |qs| == d + |ps| - r
    requires forall i {:trigger qs[i]} :: 0 <= i < k ==> qs[i] == ps[i]
    requires forall j {:trigger qs[j]} :: d <= j < |qs| ==> qs[j] == ps[j - d + r]
    requires i < |ps| && (i + 1 < k || r < i) && LocalMaxAt(ps, i)
    ensures ps[i] in LocalMaxima(qs)
  {
    var j := if i + 1 < k then i else i - r + d;
    SameNeighbourhood(ps, i, qs, j);
    assert qs[j] in LocalMaxima(qs);
  }

  /** Whether a point is a local maximum depends only on it and its neighbours. */
  lemma SameNeighbourhood(ps: seq<Point>, i: nat, qs: seq<Point>, j: nat)
    requires i < |ps| && j < |qs| && qs[j] == ps[i]
    requires (0 < i <==> 0 < j) && (0 < i ==> qs[j - 1] == ps[i - 1])
    requires (i + 1 < |ps| <==> j + 1 < |qs|) && (i + 1 < |ps| ==> qs[j + 1] == ps[i + 1])
    ensures LocalMaxAt(ps, i) == LocalMaxAt(qs, j)
  {
  }

  /** The splice lemma read on the unchanged function: every local maximum lies outside
      positions `k - 1` through `r` or is one of the at most three points there. */
  lemma SpliceSelf(ps: seq<Point>, k: nat, r: nat, x: Point)
    requires k <= r <= |ps| && r <= k + 1
    ensures x in LocalMaxima(ps) <==>
      x in Kept(ps, k, r)
      || (0 < k && x == ps[k - 1] && LocalMaxAt(ps, k - 1))
      || (r == k + 1 && x == ps[k] && LocalMaxAt(ps, k))
      || (r < |ps| && x == ps[r] && LocalMaxAt(ps, r))
  {
    assert ps[..k] + ps[k..r] + ps[r..] == ps;
    SpliceLocalMaxima(ps, k, r, ps[k..r], x);
  }

  /** A local maximum outside the splice is none of the points at its edges, nor the
      spliced-in point, whose argument lies between the neighbours'. */
  lemma KeptDistinct(ps: seq<Point>, k: nat, r: nat, mid: seq<Point>, x: Point)
    requires StrictlySorted(ByArg, ps) && k <= r <= |ps| && r <= k + 1 && |mid| <= 1
    requires |mid| == 1 && 0 < k ==> ps[k - 1].arg < mid[0].arg
    requires |mid| == 1 && r < |ps| ==> mid[0].arg < ps[r].arg
    requires x in Kept(ps, k, r)
    ensures x in LocalMaxima(ps)
    ensures 0 < k ==> x != ps[k - 1]
    ensures r == k + 1 ==> x != ps[k]
    ensures r < |ps| ==> x != ps[r]
    ensures |mid| == 1 ==> x != mid[0]
  {
    var i :| 0 <= i < |ps| && (i + 1 < k || r < i) && LocalMaxAt(ps, i) && ps[i] == x;
    if i + 1 < k {
      assert Less(ByArg, ps[i], ps[k - 1]);
      assert r == k + 1 ==> Less(ByArg, ps[i], ps[k]);
      assert r < |ps| ==> Less(ByArg, ps[i], ps[r]);
    } else {
      assert Less(ByArg, ps[r], ps[i]);
      assert 0 < k ==> Less(ByArg, ps[k - 1], ps[i]);
      assert r == k + 1 ==> Less(ByArg, ps[k], ps[i]);
    }
  }

  /** The splice lemma in the form both mutations use: after replacing the at most one
      point at `k` by `mid`, a point is a local maximum exactly when it was one and is
      none of the points around the splice, or it is the left neighbour, the new point
      or the right neighbour and qualifies in the new sequence. */
  lemma SpliceMembership(ps: seq<Point>, k: nat, r: nat, mid: seq<Point>, x: Point)
    requires StrictlySorted(ByArg, ps) && k <= r <= |ps| && r <= k + 1 && |mid| <= 1
    requires |mid| == 1 && 0 < k ==> ps[k - 1].arg < mid[0].arg
    requires |mid| == 1 && r < |ps| ==> mid[0].arg < ps[r].arg
    ensures var qs := ps[..k] + mid + ps[r..];
      x in LocalMaxima(qs) <==>
        (x in LocalMaxima(ps) && (0 < k ==> x != ps[k - 1]) && (r == k + 1 ==> x != ps[k])
           && (r < |ps| ==> x != ps[r]) && (|mid| == 1 ==> x != mid[0]))
        || (0 < k && x == ps[k - 1] && LocalMaxAt(qs, k - 1))
        || (|mid| == 1 && x == mid[0] && LocalMaxAt(qs, k))
        || (r < |ps| && x == ps[r] && LocalMaxAt(qs, k + |mid|))
  {
    var qs := ps[..k] + mid + ps[r..];
    assert 0 < k ==> qs[k - 1] == ps[k - 1];
    assert |mid| == 1 ==> qs[k] == mid[0];
    assert r < |ps| ==> qs[k + |mid|] == ps[r];
    SpliceLocalMaxima(ps, k, r, mid, x);
    SpliceSelf(ps, k, r, x);
    if x in Kept(ps, k, r) {
      KeptDistinct(ps, k, r, mid, x);
    }
  }

  /** A position holding the largest value of the function. */
  function MaxPosition(ps: seq<Point>): (m: nat)
    requires |ps| > 0
    ensures m < |ps|
    ensures forall i :: 0 <= i < |ps| ==> ps[i].value <= ps[m].value
  {
    if |ps| == 1 then 0
    else
      var m := MaxPosition(ps[1..]);
      if ps[0].value >= ps[m + 1].value then 0 else m + 1
  }

  /** A non-empty function has a local maximum, and the first entry of a maxima index
      ordered by rank holds the largest value of the whole function. */
  lemma FirstMaximumIsGlobal(ps: seq<Point>, ms: seq<Point>)
    requires |ps| > 0
    requires StrictlySorted(ByRank, ms)
    requires multiset(ms) == multiset(LocalMaxima(ps))
    ensures |ms| > 0
    ensures forall p :: p in ps ==> p.value <= ms[0].value
  {
    var m := MaxPosition(ps);
    assert LocalMaxAt(ps, m);
    assert ps[m] in LocalMaxima(ps);
    assert ps[m] in multiset(ms);
    var j :| 0 <= j < |ms| && ms[j] == ps[m];
    if j > 0 {
      assert Less(ByRank, ms[0], ms[j]);
    }
  }

  /** The maxima index lists values from largest to smallest and, among equal values,
      arguments from smallest to largest. */
  lemma MaximaOrder(ms: seq<Point>)
    requires StrictlySorted(ByRank, ms)
    ensures forall i, j :: 0 <= i < j < |ms| ==>
      ms[i].value > ms[j].value || (ms[i].value == ms[j].value && ms[i].arg < ms[j].arg)
  {
    forall i, j | 0 <= i < j < |ms|
      ensures ms[i].value > ms[j].value || (ms[i].value == ms[j].value && ms[i].arg < ms[j].arg)
    {
      assert Less(ByRank, ms[i], ms[j]);
    }
  }

  /** A function defined at a single argument has that point as its only local maximum,
      whatever its value. */
  lemma SingletonIsMaximum(p: Point)
    ensures LocalMaxima([p]) == {p}
  {
    assert LocalMaxAt([p], 0);
  }

  /** Setting (1,10), (2,5), (3,10), (4,1) in argument order gives the local maxima
      (1,10) and (3,10), listed in that order. */
  lemma FourPointExample()
    ensures Assign(Assign(Assign(Assign([], 1, 10), 2, 5), 3, 10), 4, 1)
      == [Point(1, 10), Point(2, 5), Point(3, 10), Point(4, 1)]
    ensures LocalMaxima([Point(1, 10), Point(2, 5), Point(3, 10), Point(4, 1)])
      == {Point(1, 10), Point(3, 10)}
    ensures StrictlySorted(ByRank, [Point(1, 10), Point(3, 10)])
  {
    var ps := [Point(1, 10), Point(2, 5), Point(3, 10), Point(4, 1)];
    assert LocalMaxAt(ps, 0) && !LocalMaxAt(ps, 1) && LocalMaxAt(ps, 2) && !LocalMaxAt(ps, 3);
  }

  /** Erasing 3 from that function leaves (1,10) as the only local maximum: (2,5) is
      below (1,10) and (4,1) is below (2,5). */
  lemma EraseFromFourPointExample()
    ensures Remove([Point(1, 10), Point(2, 5), Point(3, 10), Point(4, 1)], 3)
      == [Point(1, 10), Point(2, 5), Point(4, 1)]
    ensures LocalMaxima([Point(1, 10), Point(2, 5), Point(4, 1)]) == {Point(1, 10)}
  {
    var ps := [Point(1, 10), Point(2, 5), Point(4, 1)];
    assert LocalMaxAt(ps, 0) && !LocalMaxAt(ps, 1) && !LocalMaxAt(ps, 2);
  }
}
