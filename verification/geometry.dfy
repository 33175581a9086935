/**
 * Coordinate arithmetic of the simplex: coordinate sums and the centroid,
 * and the points the method moves to (reflection, expansion, contraction
 * and the shrink toward the best vertex).
 */
module Geometry {
  import opened Vertices

  /** Coordinate i of a vertex, 0 where the vertex has fewer coordinates. */
  function Coord(v: Vertex, i: nat): (r: real)
  {
    if i < |v.coord| then v.coord[i] else 0.0
  }

  /** Sum of coordinate i over the vertices, added from the front. */
  function ColumnSum(vs: seq<Vertex>, i: nat): (r: real)
    decreases |vs|
  {
    if vs == [] then 0.0 else ColumnSum(vs[..|vs| - 1], i) + Coord(vs[|vs| - 1], i)
  }

  /** `c` is the coordinate-wise mean of the vertices. */
  predicate IsCentroid(c: seq<real>, vs: seq<Vertex>)
  {
    |vs| > 0 && forall i | 0 <= i < |c| :: c[i] == ColumnSum(vs, i) / (|vs| as real)
  }

  lemma ColumnSumStep(vs: seq<Vertex>, j: nat, i: nat)
    requires j < |vs|
    ensures ColumnSum(vs[..j + 1], i) == ColumnSum(vs[..j], i) + Coord(vs[j], i)
  {
    assert vs[..j + 1][..j] == vs[..j];
  }

  lemma {:induction false} ColumnSumConcat(u: seq<Vertex>, w: seq<Vertex>, i: nat)
    ensures ColumnSum(u + w, i) == ColumnSum(u, i) + ColumnSum(w, i)
    decreases |w|
  {
    if w != [] {
      ColumnSumConcat(u, w[..|w| - 1], i);
      assert (u + w)[..|u + w| - 1] == u + w[..|w| - 1];
    } else {
      assert u + w == u;
    }
  }

  /** Taking vertex k out of the list takes its coordinate out of the sum. */
  lemma ColumnSumRemove(b: seq<Vertex>, k: nat, i: nat)
    requires k < |b|
    ensures ColumnSum(b, i) == ColumnSum(b[..k] + b[k + 1..], i) + Coord(b[k], i)
  {
    assert b == b[..k] + [b[k]] + b[k + 1..];
    ColumnSumConcat(b[..k] + [b[k]], b[k + 1..], i);
    ColumnSumConcat(b[..k], [b[k]], i);
    ColumnSumConcat(b[..k], b[k + 1..], i);
    assert ColumnSum([b[k]], i) == Coord(b[k], i) by {
      assert [b[k]][..0] == [];
    }
  }

  /** A position at which a member of the multiset of b occurs in b. */
  lemma IndexOf(b: seq<Vertex>, x: Vertex) returns (k: nat)
    requires x in multiset(b)
    ensures k < |b| && b[k] == x
  {
    k :| 0 <= k < |b| && b[k] == x;
  }

  lemma MultisetRemove(b: seq<Vertex>, k: nat)
    requires k < |b|
    ensures multiset(b[..k] + b[k + 1..]) == multiset(b) - multiset{b[k]}
  {
    assert b == b[..k] + [b[k]] + b[k + 1..];
  }

  /** Coordinate sums do not depend on the order of the vertices. */
  lemma {:induction false} ColumnSumPermutation(a: seq<Vertex>, b: seq<Vertex>, i: nat)
    requires multiset(a) == multiset(b)
    ensures ColumnSum(a, i) == ColumnSum(b, i)
    decreases |a|
  {
    if a == [] {
      assert |b| == |multiset(b)| == 0;
    } else {
      var a' := a[..|a| - 1];
      var k := IndexOf(b, a[|a| - 1]);
      var b' := b[..k] + b[k + 1..];
      MultisetRemove(a, |a| - 1);
      MultisetRemove(b, k);
      assert a[..|a| - 1] + a[|a|..] == a';
      ColumnSumPermutation(a', b', i);
      ColumnSumRemove(b, k, i);
    }
  }

  /** The mean does not depend on the order of the vertices. */
  lemma CentroidPermutation(c: seq<real>, a: seq<Vertex>, b: seq<Vertex>)
    requires IsCentroid(c, a) && multiset(a) == multiset(b)
    ensures IsCentroid(c, b)
  {
    assert |a| == |multiset(a)| == |multiset(b)| == |b|;
    forall i | 0 <= i < |c| ensures c[i] == ColumnSum(b, i) / (|b| as real) {
      ColumnSumPermutation(a, b, i);
    }
  }

  /**
   * The mean of the vertices, built coordinate by coordinate from an
   * accumulator that sums that coordinate over all vertices.
   */
  method ComputeCentroid(vs: seq<Vertex>) returns (c: seq<real>)
    requires |vs| > 0 && SameDim(vs, |vs[0].coord|)
    ensures |c| == |vs[0].coord|
    ensures IsCentroid(c, vs)
  {
    c := [];
    for i := 0 to |vs[0].coord|
      invariant |c| == i
      invariant forall m | 0 <= m < i :: c[m] == ColumnSum(vs, m) / (|vs| as real)
    {
      var s := 0.0;
      for j := 0 to |vs|
        invariant s == ColumnSum(vs[..j], i)
      {
        ColumnSumStep(vs, j, i);
        assert vs[j] in vs;
        s := s + vs[j].coord[i];
      }
      assert vs[..|vs|] == vs;
      c := c + [s / (|vs| as real)];
    }
  }

  /** Divides every coordinate sum by the number of vertices, one coordinate at a time. */
  method DivideEach(sums: seq<real>, k: nat) returns (c: seq<real>)
    requires k > 0
    ensures |c| == |sums|
    ensures forall m | 0 <= m < |sums| :: c[m] == sums[m] / (k as real)
  {
    c := sums;
    for i := 0 to |c|
      invariant |c| == |sums|
      invariant forall m | 0 <= m < i :: c[m] == sums[m] / (k as real)
      invariant forall m | i <= m < |c| :: c[m] == sums[m]
    {
      c := c[i := c[i] / (k as real)];
    }
  }

  /** Coordinate sums divided by the number of vertices give their mean. */
  lemma MeanIsCentroid(sums: seq<real>, k: nat, c: seq<real>, vs: seq<Vertex>)
    requires k == |vs| > 0 && |c| == |sums|
    requires forall m | 0 <= m < |sums| :: sums[m] == ColumnSum(vs, m)
    requires forall m | 0 <= m < |sums| :: c[m] == sums[m] / (k as real)
    ensures IsCentroid(c, vs)
  {
  }

  // ---------------------------------------------------------------------
  // Incremental centroid of `insert`

  /** Replacing the last vertex changes the coordinate sum by the difference of the two. */
  lemma ColumnSumReplaceLast(vs: seq<Vertex>, v: Vertex, i: nat)
    requires |vs| > 0
    ensures ColumnSum(vs[..|vs| - 1] + [v], i) == ColumnSum(vs, i) - Coord(vs[|vs| - 1], i) + Coord(v, i)
  {
    var r := vs[..|vs| - 1] + [v];
    assert r[..|r| - 1] == vs[..|vs| - 1];
  }

  lemma DivideDifference(s: real, w: real, v: real, k: real)
    requires k > 0.0
    ensures s / k - w / k + v / k == (s - w + v) / k
  {
  }

  /**
   * The update of `insert`: subtracting worst/k and adding new/k to each
   * coordinate of the mean gives the mean once the worst vertex is
   * replaced by the new one.
   */
  lemma CentroidReplaceLast(c: seq<real>, vs: seq<Vertex>, v: Vertex, c': seq<real>)
    requires IsCentroid(c, vs)
    requires SameDim(vs, |c|) && |v.coord| == |c| && |c'| == |c|
    requires forall i | 0 <= i < |c| ::
      c'[i] == c[i] - vs[|vs| - 1].coord[i] / (|vs| as real) + v.coord[i] / (|vs| as real)
    ensures IsCentroid(c', vs[..|vs| - 1] + [v])
  {
    var k := |vs| as real;
    assert vs[|vs| - 1] in vs;
    forall i | 0 <= i < |c'| ensures c'[i] == ColumnSum(vs[..|vs| - 1] + [v], i) / k {
      ColumnSumReplaceLast(vs, v, i);
      DivideDifference(ColumnSum(vs, i), vs[|vs| - 1].coord[i], v.coord[i], k);
    }
  }

  // ---------------------------------------------------------------------
  // Points the method moves to

  /** The point base + t·(target − base), coordinate by coordinate. */
  function Toward(base: seq<real>, target: seq<real>, t: real): (r: seq<real>)
    requires |target| == |base|
    ensures |r| == |base|
  {
    seq(|base|, i requires 0 <= i < |base| => base[i] + t * (target[i] - base[i]))
  }

  /** The reflection c + alpha·(c − w) of w through c. */
  function Reflection(c: seq<real>, w: seq<real>, alpha: real): (r: seq<real>)
    requires |w| == |c|
    ensures |r| == |c|
  {
    seq(|c|, i requires 0 <= i < |c| => c[i] + alpha * (c[i] - w[i]))
  }

  /** With factor 1 the centroid is the midpoint of the worst vertex and its reflection. */
  lemma ReflectionMidpoint(c: seq<real>, w: seq<real>)
    requires |w| == |c|
    ensures Toward(w, Reflection(c, w, 1.0), 0.5) == c
  {
  }

  /** Expanding by 2 along the reflection reaches the reflection with factor 2. */
  lemma ExpansionDoublesReflection(c: seq<real>, w: seq<real>)
    requires |w| == |c|
    ensures Toward(c, Reflection(c, w, 1.0), 2.0) == Reflection(c, w, 2.0)
  {
  }

  /** Building a pulled point coordinate by coordinate: one more coordinate extends the prefix. */
  lemma TowardPrefixStep(base: seq<real>, target: seq<real>, t: real, i: nat)
    requires |target| == |base| && i < |base|
    ensures Toward(base, target, t)[..i + 1] == Toward(base, target, t)[..i] + [base[i] + t * (target[i] - base[i])]
  {
    var r := Toward(base, target, t);
    assert r[i] == base[i] + t * (target[i] - base[i]);
    assert r[..i + 1] == r[..i] + [r[i]];
  }

  /** Building a reflection coordinate by coordinate: one more coordinate extends the prefix. */
  lemma ReflectionPrefixStep(c: seq<real>, w: seq<real>, alpha: real, i: nat)
    requires |w| == |c| && i < |c|
    ensures Reflection(c, w, alpha)[..i + 1] == Reflection(c, w, alpha)[..i] + [c[i] + alpha * (c[i] - w[i])]
  {
    var r := Reflection(c, w, alpha);
    assert r[i] == c[i] + alpha * (c[i] - w[i]);
    assert r[..i + 1] == r[..i] + [r[i]];
  }
}
