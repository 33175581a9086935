/**
 * The polytope of Support.py: its vertices in ascending order of value,
 * their centroid and their diameter, kept up to date by `insert` and
 * `shrink`.
 */
module Polytopes {
  import opened Vertices
  import opened Ordering
  import opened Geometry
  import opened Diameters

  lemma SameDimPermutation(vs: seq<Vertex>, ws: seq<Vertex>, n: nat)
    requires SameDim(vs, n) && multiset(vs) == multiset(ws)
    ensures SameDim(ws, n)
  {
    forall x | x in ws ensures x in vs {
      assert x in multiset(ws);
    }
  }

  lemma InPrefix(vs: seq<Vertex>, k: nat, x: Vertex)
    requires k <= |vs| && x in vs[..k]
    ensures x in vs
  {
    var i :| 0 <= i < k && vs[..k][i] == x;
    assert vs[i] == x;
  }

  /** A point pulled toward itself stays where it is. */
  lemma TowardSelf(b: seq<real>, s: real)
    ensures Toward(b, b, s) == b
  {
    forall i | 0 <= i < |b| ensures Toward(b, b, s)[i] == b[i] {
      assert s * (b[i] - b[i]) == 0.0;
    }
  }

  /**
   * What the methods of Support.py keep: vertices of one dimension in
   * ascending order of value, their mean as centroid and their diameter
   * as delta.
   */
  predicate Consistent(vs: seq<Vertex>, c: seq<real>, d: Delta)
  {
    |vs| > 0 && SameDim(vs, |c|) && Sorted(vs) && IsCentroid(c, vs) && IsDiameter(d, vs)
  }

  /** Reordering the vertices keeps the centroid and the diameter. */
  lemma ConsistentPermutation(vs: seq<Vertex>, ws: seq<Vertex>, c: seq<real>, d: Delta)
    requires SameDim(vs, |c|) && IsCentroid(c, vs) && IsDiameter(d, vs)
    requires multiset(vs) == multiset(ws) && Sorted(ws)
    ensures Consistent(ws, c, d)
  {
    assert |ws| == |multiset(ws)| == |multiset(vs)| == |vs|;
    SameDimPermutation(vs, ws, |c|);
    CentroidPermutation(c, vs, ws);
    DiameterPermutation(d, vs, ws);
  }

  /**
   * The state `insert` leaves: the new centroid and diameter describe the
   * kept vertices plus v, and binary insertion puts that set in order.
   */
  lemma InsertConsistent(vs: seq<Vertex>, c: seq<real>, d: Delta, v: Vertex, c': seq<real>, d': Delta)
    requires Consistent(vs, c, d) && |v.coord| == |c| && |c'| == |c|
    requires IsCentroid(c', vs[..|vs| - 1] + [v]) && IsDiameter(d', vs[..|vs| - 1] + [v])
    ensures Consistent(InsertSorted(v, vs[..|vs| - 1]), c', d')
  {
    var rest := vs[..|vs| - 1];
    SortedSplit(vs, |vs| - 1);
    InsertSortedInOrder(v, rest);
    forall x | x in rest + [v] ensures |x.coord| == |c| {
      if x != v {
        InPrefix(vs, |vs| - 1, x);
      }
    }
    ConsistentPermutation(rest + [v], InsertSorted(v, rest), c', d');
  }

  /**
   * The state `shrink` leaves: when the new vertices are the old ones
   * pulled toward the best and the new centroid and diameter describe
   * them, any ordering of them by value is consistent and its best value
   * is no worse.
   */
  lemma ShrinkConsistent(vs: seq<Vertex>, sigma: real,
                         temp: seq<Vertex>, c: seq<real>, d: Delta, sorted: seq<Vertex>)
    requires |vs| > 0 && PulledToward(temp, vs, vs[0].coord, sigma)
    requires temp[0] == vs[0]
    requires SameDim(temp, |c|) && IsCentroid(c, temp) && IsDiameter(d, temp)
    requires Sorted(sorted) && multiset(sorted) == multiset(temp)
    ensures Consistent(sorted, c, d)
    ensures sorted[0].value <= vs[0].value
  {
    ConsistentPermutation(temp, sorted, c, d);
    assert vs[0] in multiset(sorted) by {
      assert temp[0] in multiset(temp);
    }
    var b :| 0 <= b < |sorted| && sorted[b] == vs[0];
    assert sorted[0].value <= sorted[b].value;
  }

  /**
   * The inner loop of `shrink`: the point base + sigma·(target − base),
   * built coordinate by coordinate and added into the running sums.
   */
  method PullPoint(base: seq<real>, target: seq<real>, sigma: real, sums: seq<real>)
    returns (p: seq<real>, sums': seq<real>)
    requires |target| == |base| == |sums|
    ensures p == Toward(base, target, sigma)
    ensures |sums'| == |sums| && forall m | 0 <= m < |sums| :: sums'[m] == sums[m] + p[m]
  {
    p := [];
    sums' := sums;
    for i := 0 to |target|
      invariant |sums'| == |sums|
      invariant p == Toward(base, target, sigma)[..i]
      invariant forall m | 0 <= m < i :: sums'[m] == sums[m] + p[m]
      invariant forall m | i <= m < |sums| :: sums'[m] == sums[m]
    {
      TowardPrefixStep(base, target, sigma, i);
      p := p + [base[i] + sigma * (target[i] - base[i])];
      sums' := sums'[i := sums'[i] + p[i]];
    }
    assert Toward(base, target, sigma)[..|target|] == Toward(base, target, sigma);
  }

  /** Adding a vertex's coordinates to the sums of a list gives the sums of the longer list. */
  lemma SumsAppend(temp: seq<Vertex>, nv: Vertex, before: seq<real>, sums: seq<real>)
    requires |before| == |sums| == |nv.coord|
    requires forall m | 0 <= m < |before| :: before[m] == ColumnSum(temp, m)
    requires forall m | 0 <= m < |before| :: sums[m] == before[m] + nv.coord[m]
    ensures forall m | 0 <= m < |sums| :: sums[m] == ColumnSum(temp + [nv], m)
  {
    assert (temp + [nv])[..|temp|] == temp;
  }

  /**
   * The first loop of `shrink`: the best vertex is kept, every other
   * vertex is replaced by a new one pulled toward the best by sigma and
   * evaluated with f, and each coordinate is summed over the new list.
   */
  method PullTowardBest(vs: seq<Vertex>, n: nat, sigma: real, f: seq<real> -> real)
    returns (temp: seq<Vertex>, sums: seq<real>)
    requires |vs| > 0 && SameDim(vs, n)
    ensures PulledToward(temp, vs, vs[0].coord, sigma) && temp[0] == vs[0]
    ensures forall q | 1 <= q < |temp| :: temp[q].value == f(temp[q].coord)
    ensures SameDim(temp, n) && |sums| == n
    ensures forall m | 0 <= m < n :: sums[m] == ColumnSum(temp, m)
  {
    var best := vs[0];
    assert best in vs;
    temp := [best];
    sums := best.coord;
    assert [best][..0] == [];
    for j := 1 to |vs|
      invariant |temp| == j && temp[0] == best
      invariant |sums| == n
      invariant SameDim(temp, n)
      invariant forall q | 1 <= q < j ::
        temp[q].coord == Toward(best.coord, vs[q].coord, sigma) && temp[q].value == f(temp[q].coord)
      invariant forall m | 0 <= m < n :: sums[m] == ColumnSum(temp, m)
    {
      var w := vs[j];
      assert w in vs;
      var p, sums' := PullPoint(best.coord, w.coord, sigma, sums);
      ghost var before := sums;
      sums := sums';
      var nv := new Vertex(p, f(p));
      SumsAppend(temp, nv, before, sums);
      temp := temp + [nv];
    }
    TowardSelf(best.coord, sigma);
  }

  class Polytope {
    var vertices: seq<Vertex>
    var centroid: seq<real>
    var delta: Delta

    /**
     * What the methods of Support.py keep: vertices of one dimension in
     * ascending order of value, their mean as centroid and their
     * diameter as delta.
     */
    predicate Valid()
      reads this
    {
      Consistent(vertices, centroid, delta)
    }

    /** The vertices kept by `insert`: all but the worst. */
    function Rest(): (r: seq<Vertex>)
      reads this
      requires |vertices| > 0
    {
      vertices[..|vertices| - 1]
    }

    function Worst(): (r: Vertex)
      reads this
      requires |vertices| > 0
    {
      vertices[|vertices| - 1]
    }

    /**
     * Construction from a non-empty list of points of one dimension: sort
     * by value, average the coordinates, scan every pair for the diameter.
     */
    constructor (points: seq<Vertex>)
      requires |points| > 0 && SameDim(points, |points[0].coord|)
      ensures Valid()
      ensures multiset(vertices) == multiset(points)
      ensures |centroid| == |points[0].coord|
    {
      var n := |points[0].coord|;
      var sorted := SortByValue(points);
      assert |sorted| == |multiset(points)| == |points|;
      SameDimPermutation(points, sorted, n);
      assert sorted[0] in sorted;
      var c := ComputeCentroid(sorted);
      var d := ScanPairs(sorted, n, NoPair);
      ScanFindsDiameter(d, sorted);
      vertices := sorted;
      centroid := c;
      delta := d;
    }

    /**
     * Replaces the worst vertex by v: the centroid is moved by
     * (v − worst)/k, the diameter is taken from v's farthest pair when
     * that is strictly longer, recomputed over the kept vertices when the
     * old pair used the worst vertex, and kept otherwise; then v is placed
     * by binary insertion among the kept vertices.
     */
    method Insert(v: Vertex)
      requires Valid() && |v.coord| == |centroid|
      modifies this
      ensures Valid()
      ensures vertices == InsertSorted(v, old(Rest()))
      ensures |vertices| == old(|vertices|)
      ensures |centroid| == old(|centroid|)
      ensures forall i | 0 <= i < |centroid| ::
        centroid[i] == old(centroid[i] - Worst().coord[i] / (|vertices| as real) + v.coord[i] / (|vertices| as real))
      ensures delta.dist > old(delta.dist) ==> delta.a == v
      ensures ((forall w | w in old(Rest()) :: Dist2(v, w) <= old(delta.dist))
        && old(delta.a != Worst() && delta.b != Worst())) ==> delta == old(delta)
    {
      var vs, c := vertices, centroid;
      var k, n := |vs|, |c|;
      var worst := vs[k - 1];
      assert worst in vs;
      var cent := [];
      for i := 0 to n
        invariant |cent| == i
        invariant forall m | 0 <= m < i ::
          cent[m] == c[m] - worst.coord[m] / (k as real) + v.coord[m] / (k as real)
      {
        cent := cent + [c[i] - worst.coord[i] / (k as real) + v.coord[i] / (k as real)];
      }
      CentroidReplaceLast(c, vs, v, cent);
      centroid := cent;
      var d := ReplaceDiameter(vs, delta, v, n);
      delta := d;
      InsertConsistent(vs, c, old(delta), v, cent, d);
      vertices := InsertSorted(v, vs[..k - 1]);
    }

    /**
     * Pulls every vertex but the best toward the best by the factor
     * sigma and evaluates the new points with f; the centroid and the
     * diameter are recomputed over the new vertices, which are then
     * ordered by value.
     */
    method Shrink(sigma: real, f: seq<real> -> real) returns (ghost shrunk: seq<Vertex>)
      requires Valid()
      modifies this
      ensures Valid()
      ensures |centroid| == old(|centroid|) && |vertices| == old(|vertices|)
      ensures |shrunk| == old(|vertices|) && shrunk[0] == old(vertices[0])
      ensures PulledToward(shrunk, old(vertices), old(vertices[0].coord), sigma)
      ensures forall j | 1 <= j < |shrunk| :: shrunk[j].value == f(shrunk[j].coord)
      ensures multiset(vertices) == multiset(shrunk)
      ensures vertices[0].value <= old(vertices[0].value)
    {
      var vs := vertices;
      var n := |centroid|;
      var temp, sums := PullTowardBest(vs, n, sigma, f);
      var cent := DivideEach(sums, |temp|);
      MeanIsCentroid(sums, |temp|, cent, temp);
      centroid := cent;

      var d := ScanPairs(temp, n, NoPair);
      ScanFindsDiameter(d, temp);
      delta := d;

      shrunk := temp;
      vertices := SortByValue(temp);
      ShrinkConsistent(vs, sigma, temp, cent, d, vertices);
      assert |vertices| == |multiset(vertices)| == |multiset(temp)| == |temp|;
    }
  }

  /**
   * Construction with its failures: an empty list (the source fails on
   * `vertices[0]`) and points of different dimensions. The source fails
   * on the latter in two ways, both `DimensionMismatch` here: an
   * `IndexError` in the centroid loop when the best vertex has more
   * coordinates than another, and otherwise the `TypeError` that the
   * malformed message of `distance` raises.
   */
  method Build(points: seq<Vertex>) returns (r: Result<Polytope>)
    ensures |points| == 0 ==> r == Err(NoVertices)
    ensures |points| > 0 && !SameDim(points, |points[0].coord|) ==> r == Err(DimensionMismatch)
    ensures r.Ok? ==> fresh(r.value) && r.value.Valid() && multiset(r.value.vertices) == multiset(points)
    ensures |points| > 0 && SameDim(points, |points[0].coord|) ==> r.Ok?
  {
    if |points| == 0 {
      return Err(NoVertices);
    }
    if !SameDim(points, |points[0].coord|) {
      return Err(DimensionMismatch);
    }
    var p := new Polytope(points);
    return Ok(p);
  }
}
