# FunctionMaxima in Dafny

A model of `FunctionMaxima<A, V>` (`function_maxima.h`), with proofs about it.
`FunctionMaxima` is a finite function from arguments to values. It keeps two indices up to date:

- `points`, the domain index: the points of the function, ordered by argument.
- `maxima`, the maxima index: exactly those points whose value is not below either neighbour's. A missing neighbour counts as satisfied. Points are ranked by value descending, then by argument ascending.

`set_value` and `erase` update both indices in place. First they classify the changed point's left and right neighbours (and the new point, for `set_value`). Then they make the needed maxima inserts inside a `try` block, and the domain insert for `set_value`. If an insert throws, the inserts already made are undone. Only after that do they erase stale maxima entries and the old point.

The project has six modules, one per file:

- `points.dfy` (`Points`): the point type, `is_maximum`, and the two comparators. Both comparators are proved to be strict weak orders, and the rank order is proved total.
- `ordered_multiset.dfy` (`OrderedMultiset`): `std::multiset` as a sequence kept in order. It has `lower_bound`, `upper_bound`, `find` and `insert`, where `insert` places an element after every element equivalent to it. It also proves that a multiset of points has exactly one iteration order by rank.
- `domain.dfy` (`Domain`): what the class means. A function is a sequence of points with strictly increasing arguments. `Assign` (`f(a) = v`), `Remove` and `Lookup` give its semantics, and `LocalMaxima` is the set the maxima index must hold. The lemmas include the splice lemma: replacing the at most one point at a position changes the local-maximum status only of that position and its two neighbours.
- `updates.dfy` (`MaximaUpdates`): the classification both mutations compute, with the points each mutation promotes and demotes. The main lemmas prove that promoting and demoting exactly those points turns the old local maxima into the new ones.
- `function_maxima.dfy` (`FunctionMaximaClass`): the class. Its fields are `points: seq<Point>` and `maxima: multiset<Point>`, and `Valid()` is the class invariant. `SetValue`, `Erase` and `EraseAt` keep `Valid()`. `SetValue` and `Erase` state the new domain index against `Assign` / `Remove`, and the new maxima index against the promoted and demoted points. They also state when an exception is thrown, and that a throw leaves both indices as they were. The staging and commit steps they are built from each state their effect on the two fields.
- `scenarios.dfy` (`Scenarios`): clients that build a small function on the object, erase from it, and erase from an empty function.

Exceptions from comparisons, copies and allocation are a parameter, `fault: Fault`:

- `NoFault`: nothing throws.
- `BeforeChange`: something throws while the arguments and neighbours are looked up, before anything changes.
- `ThrowAt(step)`: insert number `step` of the `try` block throws. Inserts are counted from 0, in the order the block attempts them.

A mutation returns `Done`, or `Thrown` where the C++ code rethrows.

`set_value` inserts the new point into the domain index before it erases the old point for the same argument (`function_maxima.h:213`, `235`). So between the two, the domain index holds two points for `a`. The model follows the code here, not the rule that an argument appears at most once in the domain index. `StageSetValue` ends with `Insert(ByArg, …)`, and `CommitSetValue` then drops the old point, which `SetValueDomain` shows sits just before the new one.

## Model

| member | source | states |
|---|---|---|
| Points.IsMaximum | function_maxima.h:51-53 | `is_maximum` holds exactly when the middle value is at least each neighbour's value |
| Points.PointsLess | function_maxima.h:55-59 | `points_comparator`: one point before another exactly when its argument is smaller; its order properties are `StrictWeakOrder` |
| Points.MaximaLess | function_maxima.h:61-67 | `maxima_comparator`: spelled out by `MaximaLessMeaning`, with its order properties in `StrictWeakOrder` and `RankTotal` |
| Points.MissingNeighbour | function_maxima.h:192-194 | passing `mid` for a missing neighbour makes that side of `is_maximum` hold, so only the other neighbour is compared; a lone point is a maximum |
| Points.MaximaLessMeaning | function_maxima.h:61-67 | the rank comparator orders by greater value first, then by smaller argument |
| Points.StrictWeakOrder | function_maxima.h:55-67 | both comparators are irreflexive, asymmetric, transitive and transitive in incomparability, as `std::multiset` requires |
| Points.RankTotal | function_maxima.h:61-67 | two points neither of which ranks before the other are equal, so a `maxima.find` by rank finds that very point |
| OrderedMultiset.LowerBound | function_maxima.h:117 | every position before the result holds an element less than the key, and the result's element is not |
| OrderedMultiset.UpperBound | function_maxima.h:148 | no element before the result is greater than the key, and the result's element is |
| OrderedMultiset.BoundsInSorted | function_maxima.h:148 | in an ordered sequence the lower bound is at most the upper bound, everything from the lower bound on is not below the key, and everything from the upper bound on is above it |
| OrderedMultiset.Find | function_maxima.h:117 | the result is the end or a position holding an element equivalent to the key |
| OrderedMultiset.FindInSorted | function_maxima.h:147 | in an ordered sequence `find` returns the end exactly when no element is equivalent to the key |
| OrderedMultiset.Insert | function_maxima.h:213 | the element goes in at its upper bound; the length grows by one and the contents gain exactly that element |
| OrderedMultiset.InsertSorted | function_maxima.h:202 | inserting keeps a sequence ordered |
| OrderedMultiset.DropSorted | function_maxima.h:322 | erasing one position keeps the domain index strictly ordered |
| OrderedMultiset.SortedUnique | function_maxima.h:71 | two rank-ordered sequences with the same contents are equal, so the maxima index has one iteration order |
| OrderedMultiset.RankOrder | function_maxima.h:121-128 | the iteration order of a multiset ordered by rank holds its contents and is ordered |
| OrderedMultiset.DistinctSortedIsStrict | function_maxima.h:71 | a rank-ordered sequence without repeated points is strictly ordered |
| Domain.Lookup | function_maxima.h:133-139 | the lookup finds a value exactly when some point has the argument, and that point is in the function |
| Domain.AssignLookup | function_maxima.h:142-144 | after `f(a) = v` the function is `v` at `a` and unchanged at every other argument |
| Domain.AssignSorted | function_maxima.h:56-58 | `f(a) = v` keeps the arguments strictly increasing |
| Domain.AssignSize | function_maxima.h:143-144 | `f(a) = v` grows the domain by one exactly when `a` was not in it |
| Domain.AssignSplice | function_maxima.h:146-150 | `f(a) = v` replaces the positions from the lower to the upper bound of `a` with the new point; the old point exists exactly when the bounds differ by one |
| Domain.RemoveLookup | function_maxima.h:243-244 | after `erase(a)` the function is undefined at `a` and unchanged elsewhere |
| Domain.RemoveSorted | function_maxima.h:322 | removing keeps the arguments strictly increasing |
| Domain.RemoveSize | function_maxima.h:243-249 | the domain shrinks by one exactly when `a` was in it |
| Domain.RemoveSplice | function_maxima.h:246-249 | removing `a` drops the position `find` returns, and changes nothing when `find` returns the end |
| Domain.RemoveFirst | function_maxima.h:322 | removing drops the first point with the argument |
| Domain.RemoveAbsent | function_maxima.h:247-249 | removing an argument outside the domain changes nothing |
| Domain.FindByArg | function_maxima.h:111-118 | `find` with any value in the key returns a position before the end exactly when `a` is in the domain, and then the point there has argument `a` and its value is the function's value at `a` |
| Domain.SizeIsDomainSize | function_maxima.h:95-97 | the number of points is the number of arguments in the domain |
| Domain.MaximumIffLocal | function_maxima.h:51-53 | a point of a strictly ordered function is a local maximum exactly when `is_maximum` holds for it and its neighbours |
| Domain.PointOfArg | function_maxima.h:133-139 | every point of the function is what a lookup of its argument returns |
| Domain.MaximaInDomain | function_maxima.h:71 | every local maximum is a point of the function, with the same argument and value |
| Domain.SpliceLocalMaxima | function_maxima.h:176-194 | replacing positions `k` to `r` by at most one point changes the local maxima only at the left neighbour, the new point and the right neighbour |
| Domain.SpliceSelf | function_maxima.h:176-189 | every local maximum lies away from the changed positions or is one of the at most three points at them |
| Domain.KeptDistinct | function_maxima.h:228-238 | a local maximum away from the changed positions is none of the neighbours, the old point or the new point |
| Domain.SpliceMembership | function_maxima.h:176-194 | after the change a point is a local maximum exactly when it was one and is none of the points around the change, or it is a neighbour or the new point and qualifies in the new function |
| Domain.SameNeighbourhood | function_maxima.h:51-53 | whether a point is a local maximum depends only on it and its two neighbours |
| Domain.MaxPosition | function_maxima.h:120-123 | a non-empty function has a position holding its largest value |
| Domain.FirstMaximumIsGlobal | function_maxima.h:120-123 | a non-empty function has a local maximum, and the first entry of the maxima index holds the largest value of the whole function |
| Domain.MaximaOrder | function_maxima.h:61-67 | the maxima index lists values from largest to smallest and, among equal values, arguments from smallest to largest |
| Domain.SingletonIsMaximum | function_maxima.h:192-194 | a function defined at one argument has that point as its only local maximum, whatever its value |
| Domain.FourPointExample | function_maxima.h:144-240 | setting (1,10), (2,5), (3,10), (4,1) gives local maxima (1,10) and (3,10), ranked in that order |
| Domain.EraseFromFourPointExample | function_maxima.h:245-323 | erasing 3 from that function leaves (1,10) as the only local maximum |
| MaximaUpdates.Classify | function_maxima.h:150-189 | the neighbours, their iterators and their `is_max`/`is_in` flags that `set_value` (and `erase`, 250-287) compute; what the flags mean is `ClassifyMeaning` |
| MaximaUpdates.NewPointQualifies | function_maxima.h:192-194 | `is_max_new` holds exactly when each existing neighbour's value is at most the new value; a missing neighbour imposes nothing |
| MaximaUpdates.ClassifyMeaning | function_maxima.h:176-194 | each neighbour's `is_max` flag says whether it is a local maximum of the changed function, its `is_in` flag whether it is one now, and the new point's test whether it is one after the change |
| MaximaUpdates.ClassifyLeft | function_maxima.h:273-278 | the left neighbour's flags are truthful about the function after the change and now |
| MaximaUpdates.ClassifyRight | function_maxima.h:282-287 | the right neighbour's flags are truthful about the function after the change and now |
| MaximaUpdates.ClassifyNew | function_maxima.h:192-194 | `is_max_new` says whether the new point is a local maximum once it is in place |
| MaximaUpdates.ExchangeCount | function_maxima.h:200-238 | for one point, its count before plus its promotions equals its count after plus its demotions, when the flags are truthful and the points around the change are distinct |
| MaximaUpdates.Exchange | function_maxima.h:200-238 | the maxima index plus the promotions holds every demotion, and minus the demotions it is the new set of local maxima |
| MaximaUpdates.ExchangePoint | function_maxima.h:200-238 | the per-point count of `Exchange`, for given promotion and demotion multisets |
| MaximaUpdates.PromotionsCount | function_maxima.h:200-212 | a point is promoted once per neighbour it is that newly qualifies, and once if it is the new point and qualifies |
| MaximaUpdates.DemotionsCount | function_maxima.h:228-238 | a point is demoted once per indexed neighbour it is that stops qualifying, and once if it is the indexed old point |
| MaximaUpdates.NewPointPlace | function_maxima.h:146-147 | a new point whose argument lies strictly between the neighbours' is in the old function only as the point it replaces |
| MaximaUpdates.SpliceTruthful | function_maxima.h:172-194 | the classification of a change is truthful about the old local maxima and decides membership in the new ones |
| MaximaUpdates.SpliceAllTruthful | function_maxima.h:172-194 | `SpliceTruthful` for every point at once |
| MaximaUpdates.SpliceDistinct | function_maxima.h:146-163 | the neighbours, the old and the new point are distinct, except that the new point may equal the old one |
| MaximaUpdates.SpliceMaxima | function_maxima.h:200-238 | promoting and demoting exactly the classified points turns the old local maxima into those after the change, and every demoted point is indexed |
| MaximaUpdates.SetValueShape | function_maxima.h:146-163 | `find`, `upper_bound` and the stepped-back left iterator of `set_value` bracket the old point, if any, and `f(a) = v` replaces exactly it |
| MaximaUpdates.SetValueMaxima | function_maxima.h:196-238 | what `set_value(a, v)` inserts and erases turns the old local maxima into those of the function with `f(a) = v` |
| MaximaUpdates.SetValueInsert | function_maxima.h:213-235 | inserting the new point and then dropping the old point at `find`'s position gives the function with `f(a) = v` |
| MaximaUpdates.DropBeforeInserted | function_maxima.h:234-235 | inserting after a position and then dropping that position replaces its point |
| MaximaUpdates.FindIgnoresValue | function_maxima.h:115-117 | the value in `find`'s search key changes neither the lower bound nor the result |
| MaximaUpdates.UpperBoundOfPoint | function_maxima.h:250-251 | the upper bound of a point of the strictly ordered domain index is the position just after it |
| MaximaUpdates.EraseMaxima | function_maxima.h:289-322 | what `erase(a)` inserts and erases turns the old local maxima into those of the function without `a` |
| MaximaUpdates.DropMaxima | function_maxima.h:313-322 | dropping the point at a position, promoting the staged neighbours and demoting the stale ones and the point, gives the local maxima of what is left |
| FunctionMaximaClass.PromotionsSize | function_maxima.h:200-212 | the number of maxima inserts is one per staged neighbour plus one when the new point qualifies |
| FunctionMaximaClass.ErasuresAreStale | function_maxima.h:228-233 | the stale neighbours are each present when erased, and erasing them one at a time takes them all away |
| FunctionMaximaClass.ErasuresAreDemotions | function_maxima.h:228-238 | erasing the stale neighbours and then the old point, when it was indexed, takes away exactly the demotions |
| FunctionMaximaClass.SetValueOutcome | function_maxima.h:146-194 | what `set_value` computes before changing anything determines the promotions, the demotions and the number of inserts of `f(a) = v`; an indexed old point exists |
| FunctionMaximaClass.SetValueDomain | function_maxima.h:213-235 | after the domain insert the old point is still at `find`'s position, and dropping it leaves the strictly ordered function with `f(a) = v` |
| FunctionMaximaClass.EraseNothing | function_maxima.h:246-249 | `erase` of an argument outside the domain attempts no insert and changes neither index |
| FunctionMaximaClass.FunctionMaxima.Valid | function_maxima.h:70-71 | the class invariant over the two fields: the domain index is strictly ordered by argument and the maxima index holds exactly its local maxima |
| FunctionMaximaClass.FunctionMaxima.constructor | function_maxima.h:78 | the empty function, with both indices empty, is valid |
| FunctionMaximaClass.FunctionMaxima.Size | function_maxima.h:95-97 | `size()` is the number of arguments in the domain |
| FunctionMaximaClass.FunctionMaxima.Find | function_maxima.h:111-118 | `find(a)` returns the end exactly when `a` is not in the domain; otherwise the point it returns has argument `a` and the function's value there |
| FunctionMaximaClass.FunctionMaxima.ValueAt | function_maxima.h:133-139 | `value_at(a)` is the function's value at `a`, and fails with `InvalidArg` exactly when `a` is not in the domain |
| FunctionMaximaClass.FunctionMaxima.MaximaInOrder | function_maxima.h:121-128 | `mx_begin()` to `mx_end()` visits the maxima index strictly in rank order, each entry once |
| FunctionMaximaClass.FunctionMaxima.MaximaInOrderUnique | function_maxima.h:120-128 | any rank-ordered listing of the maxima index is that iteration order |
| FunctionMaximaClass.FunctionMaxima.FirstMaximum | function_maxima.h:120-123 | for a non-empty function, `*mx_begin()` exists and holds the function's largest value |
| FunctionMaximaClass.FunctionMaxima.InMaxima | function_maxima.h:173-174 | the maxima index finds a point of the domain exactly when it is a local maximum |
| FunctionMaximaClass.FunctionMaxima.Neighbours | function_maxima.h:150-189 | the iterator steps and `is_maximum` calls compute the classification of the change |
| FunctionMaximaClass.FunctionMaxima.InsertMaximum | function_maxima.h:202 | a maxima insert adds the point, or throws and leaves the index as it was |
| FunctionMaximaClass.FunctionMaxima.EraseMaximum | function_maxima.h:217 | a maxima erase at an iterator removes one occurrence of the point |
| FunctionMaximaClass.FunctionMaxima.GuardedInsert | function_maxima.h:201-204 | a guarded insert is attempted only when wanted, uses up one insert number, and throws exactly when the fault picks that number |
| FunctionMaximaClass.FunctionMaxima.InsertNeighbours | function_maxima.h:200-208 | the neighbour inserts throw exactly when the fault's number is below the number of staged neighbours; otherwise both staged neighbours are inserted; the index gains exactly the inserts that succeeded |
| FunctionMaximaClass.FunctionMaxima.UndoNeighbours | function_maxima.h:303-309 | erasing the neighbour inserts that succeeded gives back the index from before them |
| FunctionMaximaClass.FunctionMaxima.InsertNewPoint | function_maxima.h:209-213 | the new point's maxima insert, when it qualifies, and then its domain insert; throws exactly when the fault picks one of them |
| FunctionMaximaClass.FunctionMaxima.TrySetValue | function_maxima.h:200-214 | the `try` block of `set_value` throws exactly when the fault's number is at most the number of maxima inserts; the domain index gains the new point only when nothing throws |
| FunctionMaximaClass.FunctionMaxima.UndoSetValue | function_maxima.h:215-225 | the `catch` handler erases whichever of the left, right and new-point inserts succeeded, and so gives back the maxima index from before the `try` block |
| FunctionMaximaClass.FunctionMaxima.StageSetValue | function_maxima.h:196-226 | after the `try` block and handler, either both indices are as before and a throw is reported, or the domain holds the new point and the maxima index gains exactly the promotions |
| FunctionMaximaClass.FunctionMaxima.EraseStale | function_maxima.h:228-233 | erasing the stale neighbours takes exactly them away |
| FunctionMaximaClass.FunctionMaxima.PrepareSetValue | function_maxima.h:146-194 | the lookups of `set_value` find the old point, classify the neighbours, tell whether the old point is indexed and whether the new point qualifies |
| FunctionMaximaClass.FunctionMaxima.CommitSetValue | function_maxima.h:228-239 | the final erasures take the demotions out of the maxima index and the old point out of the domain index |
| FunctionMaximaClass.FunctionMaxima.SetValue | function_maxima.h:144-240 | `set_value(a, v)` keeps the invariant; on success the function is the old one with `f(a) = v` and the maxima index gains the promotions and loses the demotions; it throws exactly when the fault is before any change or at one of its inserts, and then both indices are unchanged |
| FunctionMaximaClass.FunctionMaxima.StageErase | function_maxima.h:293-311 | after the `try` block and handler of `erase`, either the maxima index is as before and a throw is reported, or it gains exactly the staged neighbours |
| FunctionMaximaClass.FunctionMaxima.PrepareErase | function_maxima.h:250-287 | the lookups of `erase` classify the neighbours as adjacent to each other and tell whether the point is indexed |
| FunctionMaximaClass.FunctionMaxima.CommitErase | function_maxima.h:313-322 | the final erasures take the demotions out of the maxima index and the point out of the domain index |
| FunctionMaximaClass.FunctionMaxima.EraseAt | function_maxima.h:250-322 | erasing the point `find` located keeps the invariant; on success it drops that point and the maxima index gains the staged neighbours and loses the demotions; a throw leaves both indices unchanged |
| FunctionMaximaClass.FunctionMaxima.Erase | function_maxima.h:245-323 | `erase(a)` keeps the invariant; on success the function is the old one without `a` (unchanged when `a` is absent), and the promotions, demotions and insert count are those of dropping the point `find` locates; it throws exactly when the fault is before any change on a non-empty function or at one of its neighbour inserts, and then both indices are unchanged |
| Scenarios.SetPoint | function_maxima.h:144-240 | a client's `set_value` with nothing throwing completes, keeps the invariant and sets `f(a) = v` |
| Scenarios.SetFourPoints | function_maxima.h:78-240 | a new object given (1,10), (2,5), (3,10), (4,1) holds those points, and its maxima index holds (1,10) and (3,10), iterated in that order |
| Scenarios.FourPointMaxima | function_maxima.h:120-128 | a valid object holding those four points has that maxima index and that iteration order |
| Scenarios.EraseThree | function_maxima.h:245-323 | erasing 3 from that object leaves (1,10), (2,5), (4,1), with (1,10) the only entry of the maxima index |
| Scenarios.EraseFromEmpty | function_maxima.h:112-114 | `erase` on a new, empty object completes even when every comparison would throw |

## Left out

- `InvalidArg` as a `std::exception` subclass and its `what()` (`function_maxima.h:8-13`): the error is the value `Err(InvalidArg)` of a `Result`.
- The `shared_ptr` storage in `point_type` and its copy and move members (`function_maxima.h:20-47`): a point is the value `Point(arg, value)`.
- The copy constructor and copy assignment (`function_maxima.h:80-93`): they are deep copies with no logic of their own.
- `begin()`/`end()` (`function_maxima.h:99-107`): the domain index is a sequence, and its order is the traversal order. `mx_begin()`/`mx_end()` are the ghost `MaximaInOrder`.
- Iterators are positions in the domain index. Multiset iterators stay valid across the insert. The model shows this for `find`'s result instead (`SetValueDomain`: the old point keeps its position, because the new point is inserted after it). Iterators into the maxima index are the points they denote (`RankTotal`).
- Generic `A` and `V`, which only need a strict weak order: both are `int`, whose `<` is a total order. A comparator that throws, or that treats distinct values as equivalent, is not modelled beyond the `Fault` parameter.
- C++ exceptions: replaced by the `Fault` parameter and the `Status` result. Any throw before the first insert (in `find`, `upper_bound`, `maxima.find`, the value comparisons, or building the new point) is `BeforeChange`. This holds for `erase` of an absent argument too, because `find`'s comparisons may throw there. On an empty function `erase` makes no comparison and copies no value, so it completes whatever the fault. The erasures are taken not to throw, as in the code.
- The maxima index is a `multiset<Point>` field, not an ordered container. Its order is the ghost `MaximaInOrder`, and `SortedUnique` proves that order is determined by the contents.
- In the `catch` handler of `erase` (`function_maxima.h:307-309`), erasing the right neighbour's insert can never happen. The right insert is the last one, so when it throws it has not succeeded. The shared `UndoNeighbours` still handles every combination of flags.
- The unused `<iostream>` include.
