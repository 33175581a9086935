# Nelder–Mead downhill simplex, modelled in Dafny

This project models the core of a small Python implementation of the
Nelder–Mead downhill simplex method. The model covers:

- the **polytope** of `Support.py`: a list of vertices kept in ascending
  order of objective value, together with their centroid and their
  diameter. The diameter is the farthest pair of vertices and its
  distance. The model covers construction, `insert` (the worst vertex
  is replaced by a new point), the binary insertion `__intinsert`, and
  `shrink` (every vertex is pulled toward the best one);
- the **vertex** and its `distance` to another vertex;
- one **step** of `Simplex.py`: reflection, expansion, contraction or
  shrink. It also covers the **window** of recent best values that
  `randRun` keeps to detect stagnation and restart around the best
  vertex.

Reals stand for floating-point numbers. The objective function is a
parameter `f: seq<real> -> real`. Distances are **squared** Euclidean
distances, because the model has no square root. The restart spread is
`(2·d)² = 4·d²`, with `d²` the stored diameter.

A Python vertex is compared by object identity, so a vertex is a Dafny
`class` with constant fields, and identity is reference equality. The
identity test of `insert` decides whether the old diameter pair used the
worst vertex. The model proves the diameter update correct with that
test (`Diameters.ReplaceDiameter`).

Modules:

- `Vertices`: the vertex, squared distances and the result type.
- `Ordering`: the binary insertion, both as written and corrected. It
  also has the single swap pass of `shrink` and the sort.
- `Geometry`: coordinate sums, the centroid, and the reflection,
  expansion and contraction points.
- `Diameters`: pair scans and the diameter update of `insert`.
- `Polytopes`: the invariant of the polytope and the `Polytope` class.
- `Stepping`: the step decision, the `Simplex` class, and the
  stagnation window.

`Polytope.Valid()` is the invariant that every operation of the model
keeps. It holds because the model uses the corrected insertion and sort
(see Findings); the source as written can lose the vertex list or fail on an
insertion tie and can leave the vertices unsorted after a shrink. It
holds when:

- all vertices share one dimension;
- they are sorted by value;
- the centroid is their coordinate-wise mean;
- `delta` is a diameter: it bounds every pair, and it is either the
  empty pair or witnessed by two member vertices at exactly that
  distance.

## Model

| member | source | states |
|---|---|---|
| Vertices.Vertex.constructor | Support.py:199-211 | stores the coordinates and the value |
| Vertices.Vertex.Distance | Support.py:213-230 | fails with a dimension mismatch when the coordinate lists differ in length, otherwise returns the (squared) Euclidean distance of the two coordinate lists |
| Vertices.SqDistNonNegative | Support.py:226-230 | a distance is never negative |
| Vertices.SqDistSymmetric | Support.py:226-230 | the distance from a to b equals the distance from b to a |
| Vertices.SqDistSelfZero | Support.py:226-230 | a point is at distance 0 from itself |
| Ordering.IntInsert | Support.py:97-119 | the binary insertion as written; when it returns a list, that list is one longer than the input |
| Ordering.InsertSorted | Support.py:97-119 | corrected insertion: one longer, and its elements are exactly the old ones plus the point |
| Ordering.InsertSortedMember | Support.py:97-119 | every element of the result is the point or an old element |
| Ordering.InsertSortedInOrder | Support.py:110-119 | inserting into a list sorted by value gives a list sorted by value |
| Ordering.InsertSortedFirst | Support.py:95 | after insertion the first value is the smaller of the point's value and the old first value |
| Ordering.IntInsertAgrees | Support.py:110-119 | whenever the code as written returns a list, it is the corrected insertion |
| Ordering.IntInsertPlacesDistinct | Support.py:110-117 | when no value ties with the point, the code as written returns a list |
| Ordering.IntInsertTieFails | Support.py:110-119 | on a sorted list, if any vertex ties with the point the code as written returns no list |
| Ordering.IntInsertPlacedIff | Support.py:110-119 | on a sorted list the code as written returns a list exactly when no vertex ties with the point |
| Ordering.IntInsertTieLosesList | Support.py:118-119 | inserting a point of value 2 into values 1, 2, 3 returns `None` instead of a list |
| Ordering.IntInsertNestedTieFails | Support.py:114-119 | a tie found in a left half makes the outer call concatenate `None` with a list |
| Ordering.OneSwapPass | Support.py:161-165 | the ordering loop of `shrink` computes the single bubble pass `PassUpTo` over the whole list |
| Ordering.PassPermutes | Support.py:161-165 | the pass only rearranges the vertices |
| Ordering.PassCarriesMax | Support.py:161-165 | after the pass, the last vertex has the largest value |
| Ordering.PassFirst | Support.py:161-165 | the first vertex is the old first one or the old second one, whichever has the smaller value |
| Ordering.PassGuarantees | Support.py:161-165 | the pass is a permutation with the maximum at the end |
| Ordering.PassLeavesUnsorted | Support.py:161-165 | on values 0, 3, 2, 1 the pass yields values 0, 2, 1, 3, which are not sorted |
| Ordering.SinkInto | Support.py:161-165 | moving element i down into a sorted prefix gives a sorted prefix one longer, rearranges only, and leaves the rest alone |
| Ordering.SortByValue | Support.py:30 | the result is sorted by value and is a permutation of the input |
| Geometry.ComputeCentroid | Support.py:32-40 | the accumulated sums divided by the vertex count are the coordinate-wise mean |
| Geometry.CentroidPermutation | Support.py:30-40 | the mean does not depend on the order of the vertices |
| Geometry.CentroidReplaceLast | Support.py:59-63 | subtracting worst/k and adding new/k to each coordinate gives the mean after the worst vertex is replaced |
| Geometry.DivideEach | Support.py:142-144 | every coordinate sum is divided by the vertex count |
| Geometry.MeanIsCentroid | Support.py:142-144 | the divided sums are the mean of the shrunk vertices |
| Geometry.ReflectionMidpoint | Simplex.py:49-51 | with factor 1 the centroid is the midpoint of the worst vertex and its reflection |
| Geometry.ExpansionDoublesReflection | Simplex.py:60-63 | the expansion point is the reflection with factor 2 |
| Diameters.ScanPairs | Support.py:43-50 | after the double loop every visited pair is within the result. The result is the start value or a pair of listed vertices at exactly that distance, and it never decreases |
| Diameters.ScanFindsDiameter | Support.py:43-50 | a scan from the empty pair yields a diameter of the vertex set |
| Diameters.DiameterPermutation | Support.py:28-30 | being a diameter does not depend on the order of the vertices |
| Diameters.FarthestFrom | Support.py:66-73 | the result bounds the distance from the new point to every kept vertex, and is the empty pair or a witnessed pair with the new point |
| Diameters.AdoptIsDiameter | Support.py:76-78 | when the new point's farthest pair is strictly longer, it is the diameter of the new set |
| Diameters.KeepIsDiameter | Support.py:80-81 | when the old pair avoids the worst vertex and is not beaten, it is still the diameter |
| Diameters.RescanIsDiameter | Support.py:81-92 | rescanning the kept vertices from the new point's pair yields the diameter when the old pair used the worst vertex |
| Diameters.ReplaceDiameter | Support.py:65-92 | the diameter update of `insert` yields the diameter of the new set. A longer one has the new point as its first end, and an unbeaten pair that avoids the worst vertex is kept |
| Polytopes.ConsistentPermutation | Support.py:158-165 | reordering the vertices by value keeps the centroid and the diameter valid |
| Polytopes.InsertConsistent | Support.py:59-95 | the updated centroid, the updated diameter and the insertion together restore the invariant |
| Polytopes.ShrinkConsistent | Support.py:141-165 | after shrink the recomputed centroid and diameter are valid for the sorted vertices, and the best value does not increase |
| Polytopes.PullPoint | Support.py:135-138 | the pulled point is best + sigma·(v − best), coordinate by coordinate |
| Polytopes.PullTowardBest | Support.py:129-139 | the best vertex is kept, every other vertex is pulled toward it and evaluated with f, and the returned sums are the coordinate sums of the new vertices |
| Polytopes.TowardSelf | Support.py:130 | pulling the best vertex toward itself leaves its coordinates unchanged |
| Polytopes.Polytope.constructor | Support.py:15-50 | from a non-empty list of one dimension: the vertices are the points sorted by value, with their mean and their diameter |
| Polytopes.Polytope.Insert | Support.py:52-95 | the vertices become the kept ones with the point inserted in order. The centroid moves by (new − worst)/k, the invariant is kept, and the diameter is adopted or kept as the source decides |
| Polytopes.Polytope.Shrink | Support.py:121-165 | the best vertex is kept and the others are pulled toward it and evaluated. The vertices are those, reordered. The invariant is kept and the best value does not increase |
| Polytopes.Build | Support.py:15-50 | an empty list or mixed dimensions give an error; otherwise a valid polytope of those points |
| Stepping.Decide | Simplex.py:36-87 | a chosen point is evaluated and strictly below the worst value. An expansion is taken exactly when the reflection is at or below the best and the expansion is strictly below both the reflection and the worst value. A contraction is taken exactly when the reflection is above the best and at or above the second-worst value, and the contraction is strictly below both the reflection and the worst value. A reflection carries c + (c − w), so the centroid is the midpoint of the worst vertex and it. An expansion carries c + 2·(R − c), which is the reflection with factor 2. A contraction carries c + 0.5·(w − c) |
| Stepping.SingleVertexShrinks | Simplex.py:48-87 | with one evaluated vertex the reflection and the expansion are that vertex, so the step shrinks whatever the second-worst value, which it never reads |
| Stepping.DecideShrinksIff | Simplex.py:59-87 | on ordered values the step shrinks exactly when the reflection is no better than the worst and the follow-up move also fails |
| Stepping.DecideKeepsMiddleReflection | Simplex.py:59-83 | a reflection strictly between the best and the second-worst value is inserted as it is |
| Stepping.DecideAllTiedShrinks | Simplex.py:60-87 | when all values tie and the expansion is no better, the step shrinks |
| Stepping.ReflectPoint | Simplex.py:49-51 | the loop builds the reflection c + alpha·(c − w) |
| Stepping.TowardPoint | Simplex.py:61-63 | the loop builds base + t·(target − base), used for expansion and contraction |
| Stepping.Propose | Simplex.py:47-79 | the proposed vertex is the decided point with its value, and a shrink is signalled exactly when the decision is to shrink |
| Stepping.Simplex.constructor | Simplex.py:16-34 | stores the objective, the dimension, the start point and the start spread |
| Stepping.Simplex.Step | Simplex.py:36-87 | performs the decided move: an insertion of the chosen point or a pull toward the best, a shrink for a single evaluated vertex. The invariant, the vertex count and evaluation are kept, and the best value is not increased |
| Stepping.InsertedBestNoWorse | Simplex.py:82-83 | inserting a point below the worst value never raises the best value |
| Stepping.InsertedEvaluated | Simplex.py:82-83 | inserting an evaluated point keeps every vertex evaluated by f |
| Stepping.ShrunkEvaluated | Simplex.py:85-87 | after a shrink every vertex is evaluated by f |
| Stepping.Simplex.Watch | Simplex.py:113-126 | below 2·dim + 1 entries the best value is pushed in front. At that length the step restarts exactly on stagnation, around the best vertex with the diameter as spread, and otherwise pushes in front and drops the oldest. The window never grows past 2·dim + 1 and stays newest-first |
| Stepping.Simplex.RestartedWindow | Simplex.py:118-120 | the window after a restart, holding only the best value, satisfies the window invariant |
| Stepping.Simplex.Advance | Simplex.py:111-126 | one pass of the loop body keeps the polytope valid, never raises the best value, keeps the window invariant or restarts around the best vertex |

## Left out

- `generate` (the random start points, and the random points of a restart), `__repr__`, printing and timing are not modelled. They are randomness and I/O. A restart hands back the centre and the squared spread, and a fresh polytope is built from any points by `Polytopes.Build`.
- The outer loops of `randRun` are not modelled: the `while` loop until the minimum is reached (and its guard) and the loop over trials that collects one best vertex per trial. The `while` loop may not terminate under random restarts. `Stepping.Simplex.Advance` models one pass of its body.
- `Functions.py` and `Tester.py`, the test objectives and their driver, are not part of this model.
- Floating-point rounding and overflow are not modelled: reals stand for Python floats.
- Square roots are not modelled: every distance is squared, which orders pairs the same way.
- Vertices.Vertex.Distance: returns the squared distance, not its square root.
- Polytopes.Polytope.constructor: the source sorts the caller's own list in place and keeps it as the vertex list (aliasing). The model sorts a value copy.
- Polytopes.Polytope.Shrink: it does not state that the diameter shrinks by the factor sigma². Only its recomputation is stated.
- Polytopes.Polytope.Shrink: it reorders with the corrected sort (see Findings), not the single swap pass. It works on a sequence value, not on the list in place.
- Polytopes.Polytope.Insert: it places the vertex with the corrected insertion (see Findings).
- The malformed exception message of the dimension check is not modelled. Only the error outcome is.
- Polytopes.Build: both ways the source fails on points of mixed dimensions become `DimensionMismatch`. These are an `IndexError` in the centroid loop when the best vertex has more coordinates than another, and a `TypeError` from the malformed message of `distance` otherwise.
- Stepping.Simplex.Step: it keeps `Valid()` only because it calls the corrected `Insert` and `Shrink`. In the source, a tie at the first probe of the insertion stores `None` as the vertex list (Support.py:95, 119). A tie at a deeper probe raises a `TypeError` at Support.py:115 or 117, and the vertex list is never assigned. A shrink can leave the vertices unsorted.
- Stepping.Simplex.Step: a single vertex that the objective has not evaluated is excluded. There the source can reach the second-worst vertex and fail with an `IndexError`.
- Stepping.Simplex.Advance: it keeps the polytope valid and its best value first only through the corrected `Insert` and `Shrink`, as for `Step`.

## Findings

| source | as written | input that shows it | evidently intended | confidence | as-written member | corrected member |
|---|---|---|---|---|---|---|
| Support.py:118-119 | on a tie at the probed middle, `__intinsert` returns the result of `list.insert`, which is `None`. On sorted input this happens exactly when some vertex ties with the point (`Ordering.IntInsertPlacedIff`) | point of value 2 inserted into values 1, 2, 3 | insert the point at the middle and return the list | high; not executed | Ordering.IntInsertTieFails | Ordering.InsertSortedInOrder |
| Support.py:161-165 | the ordering loop of `shrink` never moves its index back after a swap, so it is a single bubble pass | shrunk values 0, 3, 2, 1 end as 0, 2, 1, 3 | sort the vertices by value (an insertion sort) | high; not executed | Ordering.PassLeavesUnsorted | Ordering.SortByValue |
