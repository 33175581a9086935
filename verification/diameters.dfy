/**
 * The `delta` of a polytope: the largest (squared) distance between two of
 * its vertices, stored with the two vertices that give it, and the scans
 * that compute it.
 */
module Diameters {
  import opened Vertices
  import opened Geometry

  /**
   * The `delta` triple. The source starts it as `[0, 0, 0]`; the two
   * zeros standing in for vertices are `null` here, so a comparison of a
   * stored vertex with a real one fails exactly as `0 == vertex` does.
   */
  datatype Delta = Delta(dist: real, a: Vertex?, b: Vertex?)

  const NoPair := Delta(0.0, null, null)

  /** No two vertices of vs are farther apart than d says. */
  predicate Bounds(d: Delta, vs: seq<Vertex>)
  {
    forall u, w | u in vs && w in vs :: Dist2(u, w) <= d.dist
  }

  /** d is the placeholder, or names two vertices of vs lying d.dist > 0 apart. */
  predicate Witnessed(d: Delta, vs: seq<Vertex>)
  {
    if d.dist > 0.0 then
      d.a != null && d.b != null && d.a in vs && d.b in vs && Dist2(d.a, d.b) == d.dist
    else
      d == NoPair
  }

  /** d is the diameter of vs together with a pair that attains it. */
  predicate IsDiameter(d: Delta, vs: seq<Vertex>)
  {
    Bounds(d, vs) && Witnessed(d, vs)
  }

  /** The pairs a scan visits, each once with the lower index first, stay within d. */
  predicate PairsBounded(d: Delta, vs: seq<Vertex>)
  {
    forall i, j | 0 <= i < j < |vs| :: Dist2(vs[i], vs[j]) <= d.dist
  }

  /** Visiting every unordered pair once bounds every ordered pair. */
  lemma PairsToBounds(d: Delta, vs: seq<Vertex>)
    requires PairsBounded(d, vs) && d.dist >= 0.0
    ensures Bounds(d, vs)
  {
    forall u, w | u in vs && w in vs ensures Dist2(u, w) <= d.dist {
      var i :| 0 <= i < |vs| && vs[i] == u;
      var j :| 0 <= j < |vs| && vs[j] == w;
      if j < i {
        SqDistSymmetric(u.coord, w.coord);
      } else if i == j {
        SqDistSelfZero(u.coord);
      }
    }
  }

  /**
   * The pair scan of the constructor, of `insert` and of `shrink`: every
   * pair i < j of vs is measured, and a pair replaces the running maximum
   * when it is strictly farther apart.
   */
  method ScanPairs(vs: seq<Vertex>, n: nat, init: Delta) returns (d: Delta)
    requires SameDim(vs, n) && init.dist >= 0.0
    ensures PairsBounded(d, vs)
    ensures d.dist >= init.dist
    ensures d == init || (d.dist > init.dist && Witnessed(d, vs))
  {
    d := init;
    for i := 0 to |vs|
      invariant d.dist >= init.dist
      invariant d == init || (d.dist > init.dist && Witnessed(d, vs))
      invariant forall p, q | 0 <= p < q < |vs| && p < i :: Dist2(vs[p], vs[q]) <= d.dist
    {
      for x := i + 1 to |vs|
        invariant d.dist >= init.dist
        invariant d == init || (d.dist > init.dist && Witnessed(d, vs))
        invariant forall p, q | 0 <= p < q < |vs| && p < i :: Dist2(vs[p], vs[q]) <= d.dist
        invariant forall q | i < q < x :: Dist2(vs[i], vs[q]) <= d.dist
      {
        assert vs[i] in vs && vs[x] in vs;
        var r := vs[i].Distance(vs[x]);
        if r.value > d.dist {
          d := Delta(r.value, vs[i], vs[x]);
        }
      }
    }
  }

  /**
   * The first scan of `insert`: the new vertex against every kept vertex,
   * starting from the placeholder.
   */
  method FarthestFrom(v: Vertex, vs: seq<Vertex>, n: nat) returns (nd: Delta)
    requires |v.coord| == n && SameDim(vs, n)
    ensures forall w | w in vs :: Dist2(v, w) <= nd.dist
    ensures nd == NoPair || (nd.dist > 0.0 && nd.a == v && nd.b in vs && Dist2(v, nd.b) == nd.dist)
  {
    nd := NoPair;
    for j := 0 to |vs|
      invariant forall k | 0 <= k < j :: Dist2(v, vs[k]) <= nd.dist
      invariant nd == NoPair || (nd.dist > 0.0 && nd.a == v && nd.b in vs && Dist2(v, nd.b) == nd.dist)
    {
      assert vs[j] in vs;
      var r := v.Distance(vs[j]);
      if r.value > nd.dist {
        nd := Delta(r.value, v, vs[j]);
      }
    }
    forall w | w in vs ensures Dist2(v, w) <= nd.dist {
      var k :| 0 <= k < |vs| && vs[k] == w;
    }
  }

  /** A scan from the placeholder over all pairs finds the diameter. */
  lemma ScanFindsDiameter(d: Delta, vs: seq<Vertex>)
    requires PairsBounded(d, vs)
    requires d == NoPair || (d.dist > 0.0 && Witnessed(d, vs))
    ensures IsDiameter(d, vs)
  {
    PairsToBounds(d, vs);
  }

  /** Only the vertices present matter, not their order. */
  lemma DiameterPermutation(d: Delta, a: seq<Vertex>, b: seq<Vertex>)
    requires IsDiameter(d, a) && multiset(a) == multiset(b)
    ensures IsDiameter(d, b)
  {
    forall x | x in a ensures x in b {
      assert x in multiset(a);
    }
    forall x | x in b ensures x in a {
      assert x in multiset(b);
    }
  }

  // ---------------------------------------------------------------------
  // The three outcomes of `insert`, with rest the vertices kept and v the new one

  /** Every vertex of the new set is a kept vertex or the new one. */
  lemma InNewSet(rest: seq<Vertex>, v: Vertex, x: Vertex)
    requires x in rest + [v]
    ensures x in rest || x == v
  {
  }

  /** Pairs of kept vertices are pairs of the old set. */
  lemma KeptPairBounded(d: Delta, vs: seq<Vertex>, x: Vertex, y: Vertex)
    requires |vs| > 0 && Bounds(d, vs)
    requires x in vs[..|vs| - 1] && y in vs[..|vs| - 1]
    ensures Dist2(x, y) <= d.dist
  {
    var i :| 0 <= i < |vs| - 1 && vs[..|vs| - 1][i] == x;
    var j :| 0 <= j < |vs| - 1 && vs[..|vs| - 1][j] == y;
    assert vs[i] in vs && vs[j] in vs;
  }

  /** The new vertex's farthest pair is strictly longer than the old diameter: it is the new diameter. */
  lemma AdoptIsDiameter(old_d: Delta, vs: seq<Vertex>, v: Vertex, nd: Delta)
    requires |vs| > 0 && IsDiameter(old_d, vs)
    requires forall w | w in vs[..|vs| - 1] :: Dist2(v, w) <= nd.dist
    requires nd.dist > old_d.dist
    requires nd == NoPair || (nd.dist > 0.0 && nd.a == v && nd.b in vs[..|vs| - 1] && Dist2(v, nd.b) == nd.dist)
    ensures IsDiameter(nd, vs[..|vs| - 1] + [v])
  {
    var rest := vs[..|vs| - 1];
    assert old_d.dist >= 0.0 by {
      assert vs[0] in vs;
      SqDistNonNegative(vs[0].coord, vs[0].coord);
    }
    forall x, y | x in rest + [v] && y in rest + [v] ensures Dist2(x, y) <= nd.dist {
      InNewSet(rest, v, x);
      InNewSet(rest, v, y);
      if x in rest && y in rest {
        KeptPairBounded(old_d, vs, x, y);
      } else if x == v && y == v {
        SqDistSelfZero(v.coord);
        assert Dist2(x, y) == 0.0;
      } else if x == v {
        assert y in rest;
        assert Dist2(v, y) <= nd.dist;
      } else {
        assert x in rest && y == v;
        SqDistSymmetric(x.coord, v.coord);
        assert Dist2(v, x) <= nd.dist;
      }
    }
  }

  /**
   * The new vertex brings no longer pair and neither vertex of the old
   * pair is the one removed: the old delta is still the diameter.
   */
  lemma KeepIsDiameter(old_d: Delta, vs: seq<Vertex>, v: Vertex, nd: Delta)
    requires |vs| > 0 && IsDiameter(old_d, vs)
    requires forall w | w in vs[..|vs| - 1] :: Dist2(v, w) <= nd.dist
    requires nd.dist <= old_d.dist
    requires old_d.a != vs[|vs| - 1] && old_d.b != vs[|vs| - 1]
    ensures IsDiameter(old_d, vs[..|vs| - 1] + [v])
  {
    var rest := vs[..|vs| - 1];
    assert vs == rest + [vs[|vs| - 1]];
    assert old_d.dist >= 0.0 by {
      assert vs[0] in vs;
      SqDistNonNegative(vs[0].coord, vs[0].coord);
    }
    forall x, y | x in rest + [v] && y in rest + [v] ensures Dist2(x, y) <= old_d.dist {
      InNewSet(rest, v, x);
      InNewSet(rest, v, y);
      if x in rest && y in rest {
        KeptPairBounded(old_d, vs, x, y);
      } else if x == v && y == v {
        SqDistSelfZero(v.coord);
        assert Dist2(x, y) == 0.0;
      } else if x == v {
        assert y in rest;
        assert Dist2(v, y) <= nd.dist;
      } else {
        assert x in rest && y == v;
        SqDistSymmetric(x.coord, v.coord);
        assert Dist2(v, x) <= nd.dist;
      }
    }
    if old_d.dist > 0.0 {
      assert old_d.a in rest && old_d.b in rest;
    }
  }

  /**
   * The rescan of `insert`, started from the new vertex's farthest pair
   * and run over the kept vertices, finds the diameter of the new set.
   */
  lemma RescanIsDiameter(rest: seq<Vertex>, v: Vertex, nd: Delta, d: Delta)
    requires forall w | w in rest :: Dist2(v, w) <= nd.dist
    requires nd == NoPair || (nd.dist > 0.0 && nd.a == v && nd.b in rest && Dist2(v, nd.b) == nd.dist)
    requires PairsBounded(d, rest) && d.dist >= nd.dist
    requires d == nd || (d.dist > nd.dist && Witnessed(d, rest))
    ensures IsDiameter(d, rest + [v])
  {
    assert nd.dist >= 0.0;
    PairsToBounds(d, rest);
    forall x, y | x in rest + [v] && y in rest + [v] ensures Dist2(x, y) <= d.dist {
      InNewSet(rest, v, x);
      InNewSet(rest, v, y);
      if x == v && y == v {
        SqDistSelfZero(v.coord);
      } else if x == v && y in rest {
      } else if y == v && x in rest {
        SqDistSymmetric(x.coord, v.coord);
      }
    }
  }

  /**
   * The diameter update of `insert`, with vs the old vertices (the worst
   * last), d their diameter and v the vertex replacing the worst.
   */
  method ReplaceDiameter(vs: seq<Vertex>, d: Delta, v: Vertex, n: nat) returns (r: Delta)
    requires |vs| > 0 && SameDim(vs, n) && |v.coord| == n && IsDiameter(d, vs)
    ensures IsDiameter(r, vs[..|vs| - 1] + [v])
    ensures r.dist > d.dist ==> r.a == v
    ensures ((forall w | w in vs[..|vs| - 1] :: Dist2(v, w) <= d.dist)
      && d.a != vs[|vs| - 1] && d.b != vs[|vs| - 1]) ==> r == d
  {
    var worst := vs[|vs| - 1];
    var rest := vs[..|vs| - 1];
    assert forall x | x in rest :: x in vs;
    var nd := FarthestFrom(v, rest, n);
    r := d;
    var updated := false;
    if nd.dist > r.dist {
      AdoptIsDiameter(d, vs, v, nd);
      r := nd;
      updated := true;
    }
    if !updated && (r.a == worst || r.b == worst) {
      r := ScanPairs(rest, n, nd);
      RescanIsDiameter(rest, v, nd, r);
      if r != nd {
        KeptPairBounded(d, vs, r.a, r.b);
      }
    } else if !updated {
      KeepIsDiameter(d, vs, v, nd);
    }
  }

  // ---------------------------------------------------------------------
  // The vertices `shrink` computes

  /**
   * Every vertex of ts is the matching vertex of vs pulled toward `base`
   * by the factor s.
   */
  predicate PulledToward(ts: seq<Vertex>, vs: seq<Vertex>, base: seq<real>, s: real)
  {
    |ts| == |vs| &&
    forall i | 0 <= i < |vs| :: |vs[i].coord| == |base| && ts[i].coord == Toward(base, vs[i].coord, s)
  }
}
