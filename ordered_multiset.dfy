/** `std::multiset` as a sequence kept in order: lower and upper bound, `find`, `insert`
    (which places an element after every element it is equivalent to), and the facts
    that make the iteration order of a multiset of points determined by its contents. */
module OrderedMultiset {
  import opened Points

  /** No element is less than one before it: duplicates and equivalent elements allowed. */
  predicate Sorted(o: Order, s: seq<Point>) {
    forall i, j :: 0 <= i < j < |s| ==> !Less(o, s[j], s[i])
  }

  /** Every element is less than every later one: no two elements are equivalent. */
  predicate StrictlySorted(o: Order, s: seq<Point>) {
    forall i, j :: 0 <= i < j < |s| ==> Less(o, s[i], s[j])
  }

  /** `lower_bound`: the first position whose element is not less than `p`. */
  function LowerBound(o: Order, s: seq<Point>, p: Point): (i: nat)
    ensures i <= |s|
    ensures forall j :: 0 <= j < i ==> Less(o, s[j], p)
    ensures i < |s| ==> !Less(o, s[i], p)
  {
    if s == [] || !Less(o, s[0], p) then 0 else 1 + LowerBound(o, s[1..], p)
  }

  /** `upper_bound`: the first position whose element `p` is less than. */
  function UpperBound(o: Order, s: seq<Point>, p: Point): (i: nat)
    ensures i <= |s|
    ensures forall j :: 0 <= j < i ==> !Less(o, p, s[j])
    ensures i < |s| ==> Less(o, p, s[i])
  {
    if s == [] || Less(o, p, s[0]) then 0 else 1 + UpperBound(o, s[1..], p)
  }

  /** In a sorted sequence the two bounds split it into the elements below `p`, those
      equivalent to `p`, and those above `p`. */
  lemma BoundsInSorted(o: Order, s: seq<Point>, p: Point)
    requires Sorted(o, s)
    ensures LowerBound(o, s, p) <= UpperBound(o, s, p)
    ensures forall j :: LowerBound(o, s, p) <= j < |s| ==> !Less(o, s[j], p)
    ensures forall j :: UpperBound(o, s, p) <= j < |s| ==> Less(o, p, s[j])
  {
    var lb, ub := LowerBound(o, s, p), UpperBound(o, s, p);
    forall j | lb <= j < |s|
      ensures !Less(o, s[j], p)
    {
      StrictWeakOrder(o, s[j], s[lb], p);
    }
    forall j | ub <= j < |s|
      ensures Less(o, p, s[j])
    {
      StrictWeakOrder(o, p, s[j], s[ub]);
    }
  }

  /** `find`: the position of an element equivalent to `p`, or `|s|` (the end iterator). */
  function Find(o: Order, s: seq<Point>, p: Point): (i: nat)
    ensures i <= |s|
    ensures i < |s| ==> !Less(o, s[i], p) && !Less(o, p, s[i])
  {
    var lb := LowerBound(o, s, p);
    if lb < |s| && !Less(o, p, s[lb]) then lb else |s|
  }

  /** In a sorted sequence `find` returns the end exactly when no element is equivalent to `p`. */
  lemma FindInSorted(o: Order, s: seq<Point>, p: Point)
    requires Sorted(o, s)
    ensures Find(o, s, p) == |s| <==> forall j :: 0 <= j < |s| ==> Less(o, s[j], p) || Less(o, p, s[j])
  {
    BoundsInSorted(o, s, p);
  }

  /** `insert`: `p` goes in at its upper bound, after every element equivalent to it. */
  function Insert(o: Order, s: seq<Point>, p: Point): (r: seq<Point>)
    ensures |r| == |s| + 1
    ensures r[UpperBound(o, s, p)] == p
    ensures multiset(r) == multiset(s) + multiset{p}
  {
    var u := UpperBound(o, s, p);
    assert s == s[..u] + s[u..];
    s[..u] + [p] + s[u..]
  }

  /** Taking one element out keeps a sequence strictly ordered. */
  lemma DropSorted(o: Order, s: seq<Point>, k: nat)
    requires StrictlySorted(o, s) && k < |s|
    ensures StrictlySorted(o, s[..k] + s[k + 1..])
  {
    var t := s[..k] + s[k + 1..];
    forall i, j | 0 <= i < j < |t|
      ensures Less(o, t[i], t[j])
    {
      var i', j' := if i < k then i else i + 1, if j < k then j else j + 1;
      assert t[i] == s[i'] && t[j] == s[j'];
    }
  }

  /** Inserting keeps a multiset ordered. */
  lemma InsertSorted(o: Order, s: seq<Point>, p: Point)
    requires Sorted(o, s)
    ensures Sorted(o, Insert(o, s, p))
  {
    var u := UpperBound(o, s, p);
    var r := Insert(o, s, p);
    BoundsInSorted(o, s, p);
    assert forall i :: 0 <= i < u ==> r[i] == s[i];
    assert forall i :: u < i < |r| ==> r[i] == s[i - 1];
    forall i, j | 0 <= i < j < |r|
      ensures !Less(o, r[j], r[i])
    {
      if i == u {
        StrictWeakOrder(o, p, s[j - 1], p);
      } else if j != u {
        var i', j' := if i < u then i else i - 1, if j < u then j else j - 1;
        assert r[i] == s[i'] && r[j] == s[j'];
      }
    }
  }

  /** A strictly ordered sequence is ordered. */
  lemma StrictlySortedIsSorted(o: Order, s: seq<Point>)
    requires StrictlySorted(o, s)
    ensures Sorted(o, s)
  {
    forall i, j | 0 <= i < j < |s|
      ensures !Less(o, s[j], s[i])
    {
      StrictWeakOrder(o, s[i], s[j], s[i]);
    }
  }

  /** Two equal elements at different positions make a count of at least two. */
  lemma RepeatCounts(s: seq<Point>, i: nat, j: nat)
    requires i < j < |s| && s[i] == s[j]
    ensures multiset(s)[s[i]] >= 2
  {
    assert s == s[..j] + s[j..];
    assert s[..j][i] == s[i];
    assert s[j..][0] == s[i];
    assert multiset(s[..j])[s[i]] >= 1;
    assert multiset(s[j..])[s[i]] >= 1;
  }

  /** An ordered maxima sequence without repeated points is strictly ordered. */
  lemma DistinctSortedIsStrict(s: seq<Point>)
    requires Sorted(ByRank, s)
    requires forall x :: multiset(s)[x] <= 1
    ensures StrictlySorted(ByRank, s)
  {
    forall i, j | 0 <= i < j < |s|
      ensures Less(ByRank, s[i], s[j])
    {
      if s[i] == s[j] {
        RepeatCounts(s, i, j);
      }
      RankTotal(s[i], s[j]);
    }
  }

  /** An ordered maxima sequence holding the points of a set, each once, is strictly
      ordered. */
  lemma MaximaOfSet(s: seq<Point>, S: set<Point>)
    requires Sorted(ByRank, s)
    requires multiset(s) == multiset(S)
    ensures StrictlySorted(ByRank, s)
  {
    DistinctSortedIsStrict(s);
  }

  /** No element of a sequence ordered by rank precedes its first element. */
  lemma SortedFirst(s: seq<Point>, q: Point)
    requires Sorted(ByRank, s) && q in multiset(s)
    ensures !MaximaLess(q, s[0])
  {
    assert q in s;
    var j :| 0 <= j < |s| && s[j] == q;
    assert j > 0 ==> !Less(ByRank, s[j], s[0]);
  }

  /** The tail of a sequence holds its elements but one occurrence of the first. */
  lemma DropFirst(s: seq<Point>)
    requires s != []
    ensures s == [s[0]] + s[1..]
    ensures multiset(s[1..]) == multiset(s) - multiset{s[0]}
  {
    assert s == [s[0]] + s[1..];
    assert multiset(s) == multiset{s[0]} + multiset(s[1..]);
  }

  /** A multiset ordered by rank has exactly one sequence: equal contents, equal sequences. */
  lemma {:induction false} SortedUnique(s: seq<Point>, t: seq<Point>)
    requires Sorted(ByRank, s) && Sorted(ByRank, t)
    requires multiset(s) == multiset(t)
    ensures s == t
  {
    assert |s| == |multiset(s)| == |t|;
    if s != [] {
      assert s[0] in multiset(t) && t[0] in multiset(s);
      SortedFirst(s, t[0]);
      SortedFirst(t, s[0]);
      RankTotal(s[0], t[0]);
      DropFirst(s);
      DropFirst(t);
      SortedUnique(s[1..], t[1..]);
    }
  }

  /** The iteration order of a multiset of points ordered by rank, `begin()` to `end()`:
      its elements, each as often as it occurs, in rank order, as inserting them one by
      one produces it. */
  ghost function RankOrder(m: multiset<Point>): (s: seq<Point>)
    ensures multiset(s) == m
    ensures Sorted(ByRank, s)
    decreases |m|
  {
    if |m| == 0 then []
    else
      var x :| x in m;
      var t := RankOrder(m - multiset{x});
      InsertSorted(ByRank, t, x);
      Insert(ByRank, t, x)
  }
}
