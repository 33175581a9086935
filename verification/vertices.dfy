/** Points of the search space and the evaluated vertices of a simplex. */
module Vertices {

  /** The failures the modelled operations raise. */
  datatype Failure =
    | DimensionMismatch   // two coordinate sequences of different length were compared
    | NoVertices          // a polytope was built from an empty list

  datatype Result<T> = Ok(value: T) | Err(error: Failure)

  function Sq(x: real): (r: real)
    ensures r >= 0.0
  {
    x * x
  }

  /**
   * Squared Euclidean distance, summed coordinate by coordinate from the
   * front. The square root of the source is left out: every use of the
   * distance only compares distances, and squaring is monotone on them.
   * The definition is total; on sequences of different length it pairs
   * the coordinates from the back, a case no caller of the model reaches.
   */
  function SqDist(u: seq<real>, w: seq<real>): (r: real)
    decreases |u|
  {
    if u == [] || w == [] then 0.0
    else SqDist(u[..|u| - 1], w[..|w| - 1]) + Sq(u[|u| - 1] - w[|w| - 1])
  }

  lemma {:induction false} SqDistNonNegative(u: seq<real>, w: seq<real>)
    ensures SqDist(u, w) >= 0.0
    decreases |u|
  {
    if u != [] && w != [] {
      SqDistNonNegative(u[..|u| - 1], w[..|w| - 1]);
    }
  }

  lemma {:induction false} SqDistSymmetric(u: seq<real>, w: seq<real>)
    ensures SqDist(u, w) == SqDist(w, u)
    decreases |u|
  {
    if u != [] && w != [] {
      SqDistSymmetric(u[..|u| - 1], w[..|w| - 1]);
      assert Sq(u[|u| - 1] - w[|w| - 1]) == Sq(w[|w| - 1] - u[|u| - 1]);
    }
  }

  /** A point is at distance zero from itself. */
  lemma {:induction false} SqDistSelfZero(u: seq<real>)
    ensures SqDist(u, u) == 0.0
    decreases |u|
  {
    if u != [] {
      SqDistSelfZero(u[..|u| - 1]);
    }
  }

  /** A sampled point and the objective's value there; never changed after construction. */
  class Vertex {
    const coord: seq<real>
    const value: real

    constructor (coord: seq<real>, value: real)
      ensures this.coord == coord && this.value == value
    {
      this.coord := coord;
      this.value := value;
    }

    /** Squared distance to `other`; fails when the dimensions differ. */
    method Distance(other: Vertex) returns (r: Result<real>)
      ensures |other.coord| != |coord| ==> r == Err(DimensionMismatch)
      ensures |other.coord| == |coord| ==> r == Ok(SqDist(coord, other.coord))
    {
      if |other.coord| != |coord| {
        return Err(DimensionMismatch);
      }
      var d := 0.0;
      for i := 0 to |coord|
        invariant d == SqDist(coord[..i], other.coord[..i])
      {
        assert coord[..i + 1][..i] == coord[..i];
        assert other.coord[..i + 1][..i] == other.coord[..i];
        d := d + Sq(coord[i] - other.coord[i]);
      }
      assert coord[..|coord|] == coord && other.coord[..|coord|] == other.coord;
      return Ok(d);
    }
  }

  /** Squared distance between two vertices. */
  function Dist2(u: Vertex, w: Vertex): (r: real)
  {
    SqDist(u.coord, w.coord)
  }

  /** Every vertex of `vs` has `n` coordinates. */
  predicate SameDim(vs: seq<Vertex>, n: nat)
  {
    forall v | v in vs :: |v.coord| == n
  }

  /** Every vertex of `vs` carries the objective's value at its coordinates. */
  ghost predicate Evaluated(vs: seq<Vertex>, f: seq<real> -> real)
  {
    forall v | v in vs :: v.value == f(v.coord)
  }
}
