/**
 * One iteration of the downhill simplex method (Simplex.py): reflect the
 * worst vertex through the centroid, then expand, contract or shrink
 * according to a fixed order of value comparisons, and hand the outcome to
 * the polytope's `insert` or `shrink`.
 */
module Stepping {
  import opened Vertices
  import opened Ordering
  import opened Geometry
  import opened Diameters
  import opened Polytopes

  const Alpha: real := 1.0  // reflection factor
  const Gamma: real := 2.0  // expansion factor
  const Rho: real := 0.5    // contraction factor
  const Sigma: real := 0.5  // shrink factor

  /** The outcome of one step: a point to insert, and which move produced it, or a shrink. */
  datatype Move =
    | Reflect(point: seq<real>, value: real)
    | Expand(point: seq<real>, value: real)
    | Contract(point: seq<real>, value: real)
    | ShrinkAll

  /**
   * The decision of `step` for centroid c and worst vertex coordinates w,
   * with the values of the best, second-worst and worst vertices and the
   * objective f. The reflection is evaluated once; an expansion replaces
   * it only when strictly better; a contraction is taken only when
   * strictly below both the reflection and the worst vertex; a point is
   * inserted only when strictly below the worst vertex, and a shrink
   * happens otherwise. The reflection lies on the far side of the
   * centroid from the worst vertex, at the same distance; the expansion
   * goes twice as far; the contraction lies halfway between the centroid
   * and the worst vertex.
   */
  function Decide(c: seq<real>, w: seq<real>, best: real, second: real, worst: real,
                  f: seq<real> -> real): (m: Move)
    requires |w| == |c|
    ensures !m.ShrinkAll? ==> m.value == f(m.point) && m.value < worst
    ensures !m.ShrinkAll? ==> m.value <= f(Reflection(c, w, Alpha))
    ensures m.Expand? ==> f(Reflection(c, w, Alpha)) <= best && m.value < f(Reflection(c, w, Alpha))
    ensures m.Contract? ==> best < f(Reflection(c, w, Alpha)) && second <= f(Reflection(c, w, Alpha))
    ensures m.Reflect? ==> m.point == Reflection(c, w, Alpha) && Toward(w, m.point, 0.5) == c
    ensures m.Expand? ==> m.point == Toward(c, Reflection(c, w, Alpha), Gamma) && m.point == Reflection(c, w, Gamma)
    ensures m.Contract? ==> m.point == Toward(c, w, Rho) && m.value < f(Reflection(c, w, Alpha))
    ensures var r := Reflection(c, w, Alpha); var e := Toward(c, r, Gamma);
      f(r) <= best && f(e) < f(r) && f(e) < worst ==> m == Expand(e, f(e))
    ensures var r := Reflection(c, w, Alpha); var k := Toward(c, w, Rho);
      best < f(r) && second <= f(r) && f(k) < f(r) && f(k) < worst ==> m == Contract(k, f(k))
  {
    ReflectionMidpoint(c, w);
    ExpansionDoublesReflection(c, w);
    var r := Reflection(c, w, Alpha);
    var fr := f(r);
    if fr <= best then
      var e := Toward(c, r, Gamma);
      var fe := f(e);
      var candidate := if fe < fr then Expand(e, fe) else Reflect(r, fr);
      if candidate.value < worst then candidate else ShrinkAll
    else if fr >= second then
      var k := Toward(c, w, Rho);
      var fk := f(k);
      if fk < fr && fk < worst then Contract(k, fk)
      else if fr >= worst then ShrinkAll
      else Reflect(r, fr)
    else if fr < worst then Reflect(r, fr)
    else ShrinkAll
  }

  /**
   * On an ordered polytope (best <= second <= worst) a step shrinks
   * exactly when the reflection is no better than the worst vertex and
   * the move tried after it fails too: the expansion when the reflection
   * ties with the best value (so all three values are equal), the
   * contraction otherwise.
   */
  lemma DecideShrinksIff(c: seq<real>, w: seq<real>, best: real, second: real, worst: real,
                         f: seq<real> -> real)
    requires |w| == |c| && best <= second <= worst
    ensures var r := Reflection(c, w, Alpha);
      Decide(c, w, best, second, worst, f).ShrinkAll?
      <==> f(r) >= worst
           && (if f(r) <= best then f(Toward(c, r, Gamma)) >= f(r) else f(Toward(c, w, Rho)) >= worst)
  {
  }

  /** A reflection strictly between the best and the second-worst value is inserted as it is. */
  lemma DecideKeepsMiddleReflection(c: seq<real>, w: seq<real>, best: real, second: real, worst: real,
                                    f: seq<real> -> real)
    requires |w| == |c| && second <= worst
    requires best < f(Reflection(c, w, Alpha)) < second
    ensures Decide(c, w, best, second, worst, f) == Reflect(Reflection(c, w, Alpha), f(Reflection(c, w, Alpha)))
  {
  }

  /**
   * When every value ties (best = second = worst = reflection) and the
   * expansion is no better, the step shrinks, although it took the
   * expansion branch.
   */
  lemma DecideAllTiedShrinks(c: seq<real>, w: seq<real>, v: real, f: seq<real> -> real)
    requires |w| == |c|
    requires f(Reflection(c, w, Alpha)) == v
    requires f(Toward(c, Reflection(c, w, Alpha), Gamma)) >= v
    ensures Decide(c, w, v, v, v, f) == ShrinkAll
  {
  }

  /**
   * A polytope of one evaluated vertex: the centroid is that vertex, and
   * so are its reflection and the expansion, which tie with it. The step
   * takes the expansion branch and shrinks, whatever the second-worst
   * value, which it never reads.
   */
  lemma SingleVertexShrinks(c: seq<real>, v: Vertex, second: real, f: seq<real> -> real)
    requires IsCentroid(c, [v]) && |v.coord| == |c| && v.value == f(v.coord)
    ensures Decide(c, v.coord, v.value, second, v.value, f) == ShrinkAll
  {
    forall i | 0 <= i < |c| ensures c[i] == v.coord[i] {
      assert [v][..0] == [];
      assert ColumnSum([v], i) == Coord(v, i);
    }
    assert c == v.coord;
    assert Reflection(c, c, Alpha) == c;
    assert Toward(c, c, Gamma) == c;
  }

  /** The loop of `step` that builds the reflected point. */
  method ReflectPoint(c: seq<real>, w: seq<real>, alpha: real, dim: nat) returns (r: seq<real>)
    requires |c| == dim && |w| == dim
    ensures r == Reflection(c, w, alpha)
  {
    r := [];
    for x := 0 to dim
      invariant |r| == x
      invariant r == Reflection(c, w, alpha)[..x]
    {
      ReflectionPrefixStep(c, w, alpha, x);
      r := r + [c[x] + alpha * (c[x] - w[x])];
    }
    assert Reflection(c, w, alpha)[..dim] == Reflection(c, w, alpha);
  }

  /** The loops of `step` that build the expansion and the contraction points. */
  method TowardPoint(c: seq<real>, target: seq<real>, t: real, dim: nat) returns (r: seq<real>)
    requires |c| == dim && |target| == dim
    ensures r == Toward(c, target, t)
  {
    r := [];
    for x := 0 to dim
      invariant |r| == x
      invariant r == Toward(c, target, t)[..x]
    {
      TowardPrefixStep(c, target, t, x);
      r := r + [c[x] + t * (target[x] - c[x])];
    }
    assert Toward(c, target, t)[..dim] == Toward(c, target, t);
  }

  /**
   * Lines 49-79 of `step`: the reflected point, then the expansion or the
   * contraction, as a candidate vertex and a shrink flag. The candidate is
   * inserted when the flag is off and it beats the worst vertex, which is
   * exactly when `Decide` does not shrink.
   */
  method Propose(c: seq<real>, worst: Vertex, best: real, second: real, f: seq<real> -> real)
    returns (temp: Vertex, shrink: bool)
    requires |worst.coord| == |c|
    ensures var m := Decide(c, worst.coord, best, second, worst.value, f);
      (m.ShrinkAll? <==> shrink || temp.value >= worst.value)
      && (!m.ShrinkAll? ==> temp.coord == m.point && temp.value == m.value)
    ensures |temp.coord| == |c| && temp.value == f(temp.coord)
  {
    var dim := |c|;
    var r := ReflectPoint(c, worst.coord, Alpha, dim);
    temp := new Vertex(r, f(r));
    shrink := false;
    if temp.value <= best {
      var expand := TowardPoint(c, temp.coord, Gamma, dim);
      var expval := f(expand);
      if expval < temp.value {
        temp := new Vertex(expand, expval);
      }
    } else if temp.value >= second {
      var contraction := TowardPoint(c, worst.coord, Rho, dim);
      var conval := f(contraction);
      if conval < temp.value && conval < worst.value {
        temp := new Vertex(contraction, conval);
      } else if temp.value >= worst.value {
        shrink := true;
      }
    }
  }

  // ---------------------------------------------------------------------
  // The stagnation watch of `randRun`

  /**
   * What the watch decides after a step: go on with the updated window of
   * best values (newest first), or restart around the best coordinates
   * with the given squared spread, once the window is emptied.
   */
  datatype Watch = Keep(check: seq<real>) | Restart(centre: seq<real>, spread2: real)

  /** Non-decreasing from the newest entry (index 0) to the oldest. */
  predicate NewestFirst(check: seq<real>)
  {
    forall i, j | 0 <= i < j < |check| :: check[i] <= check[j]
  }

  /**
   * The window is stagnant when the best value improved on the oldest
   * entry by less than a tenth of that entry's distance above
   * minimum + termination.
   */
  predicate Stagnant(oldest: real, best: real, minimum: real, termination: real)
  {
    oldest - best < 0.1 * (oldest - (minimum + termination))
  }

  /** A run of the method on one objective, with its start point and spread. */
  class Simplex {
    const evaluate: seq<real> -> real
    const dim: nat
    const sp: seq<real>
    const sd: real

    constructor (objective: seq<real> -> real, dimension: nat, startPoint: seq<real>, startDelta: real)
      ensures evaluate == objective && dim == dimension && sp == startPoint && sd == startDelta
    {
      evaluate := objective;
      dim := dimension;
      sp := startPoint;
      sd := startDelta;
    }

    /**
     * One step on p. The move is the one `Decide` picks from p's
     * centroid, worst vertex and values; an inserted vertex carries the
     * chosen point and its value, a shrink pulls every vertex halfway to
     * the best. The vertex count, the invariant of p and the evaluation of
     * every vertex by the objective are kept, and the best value does not
     * increase.
     */
    method Step(p: Polytope) returns (ghost m: Move, ghost added: Vertex?, ghost shrunk: seq<Vertex>)
      requires p.Valid() && |p.centroid| == dim
      requires |p.vertices| >= 2 || Evaluated(p.vertices, evaluate)
      modifies p
      ensures p.Valid() && |p.vertices| == old(|p.vertices|) && |p.centroid| == dim
      ensures old(|p.vertices|) >= 2 ==> m == old(Decide(p.centroid, p.Worst().coord, p.vertices[0].value,
                                                         p.vertices[|p.vertices| - 2].value, p.Worst().value, evaluate))
      ensures old(|p.vertices|) == 1 ==> m == ShrinkAll
      ensures !m.ShrinkAll? ==> (added != null && added.coord == m.point && added.value == m.value
        && p.vertices == InsertSorted(added, old(p.Rest())))
      ensures m.ShrinkAll? ==> (PulledToward(shrunk, old(p.vertices), old(p.vertices[0].coord), Sigma)
        && shrunk[0] == old(p.vertices[0]) && multiset(p.vertices) == multiset(shrunk))
      ensures p.vertices[0].value <= old(p.vertices[0].value)
      ensures Evaluated(old(p.vertices), evaluate) ==> Evaluated(p.vertices, evaluate)
    {
      var c, vs := p.centroid, p.vertices;
      var k := |vs|;
      var worst := vs[k - 1];
      assert worst in vs;
      // With one vertex the second-worst value is never consulted.
      var second := if k >= 2 then vs[k - 2].value else worst.value;
      if k == 1 {
        assert vs == [worst];
        SingleVertexShrinks(c, worst, second, evaluate);
      }
      m := Decide(c, worst.coord, vs[0].value, second, worst.value, evaluate);
      added := null;
      shrunk := [];

      var temp, shrink := Propose(c, worst, vs[0].value, second, evaluate);

      if !shrink && temp.value < worst.value {
        ghost var rest := vs[..k - 1];
        p.Insert(temp);
        added := temp;
        InsertedBestNoWorse(temp, vs);
        InsertedEvaluated(temp, vs, evaluate);
      } else {
        shrunk := p.Shrink(Sigma, evaluate);
        ShrunkEvaluated(vs, shrunk, p.vertices, evaluate);
      }
    }

    /** The longest window of best values `randRun` keeps. */
    function Window(): (r: nat)
    {
      2 * dim + 1
    }

    /**
     * The window update of `randRun` after a step that left `best` first
     * and `delta` as the diameter. While the window is not full the best
     * value is pushed in front; when it is full the oldest entry is
     * tested: a stagnant window asks for a restart around the best
     * coordinates with spread twice the diameter (squared: four times
     * the squared diameter), any other drops the oldest entry as the new
     * one is pushed. A window within the bound stays within it, and one
     * ordered newest first stays so when the best value did not rise.
     */
    method Watch(check: seq<real>, best: Vertex, delta: Delta, minimum: real, termination: real)
      returns (w: Watch)
      ensures |check| < Window() ==> w == Keep([best.value] + check)
      ensures |check| >= Window() ==> w.Restart? == Stagnant(check[|check| - 1], best.value, minimum, termination)
      ensures w.Restart? ==> w.centre == best.coord && w.spread2 == 4.0 * delta.dist
      ensures w.Keep? ==> |w.check| > 0 && w.check[0] == best.value && w.check[1..] <= check
      ensures w.Keep? && |check| <= Window() ==> |w.check| <= Window()
      ensures w.Keep? && |check| >= Window() ==> |w.check| == |check|
      ensures w.Keep? && NewestFirst(check) && (|check| > 0 ==> best.value <= check[0]) ==> NewestFirst(w.check)
    {
      if |check| < Window() {
        w := Keep([best.value] + check);
      } else if Stagnant(check[|check| - 1], best.value, minimum, termination) {
        w := Restart(best.coord, 4.0 * delta.dist);
      } else {
        var c := [best.value] + check;
        w := Keep(c[..|c| - 1]);
      }
      if w.Keep? {
        assert w.check[1..] <= check;
      }
    }

    /**
     * What a trial of `randRun` keeps between steps: a window within the
     * bound, ordered newest first, whose newest entry is no better than
     * the current best value.
     */
    predicate TrialWindow(check: seq<real>, best: real)
    {
      |check| <= Window() && NewestFirst(check) && (|check| > 0 ==> best <= check[0])
    }

    /** The window a restart leaves, holding the best value of the new polytope only. */
    lemma RestartedWindow(best: real)
      ensures TrialWindow([best], best)
    {
    }

    /**
     * One pass of the trial loop of `randRun`: a step on p, then the
     * window update. The trial state is kept, and a restart is asked for
     * around the new best vertex with the new squared diameter.
     */
    method Advance(p: Polytope, check: seq<real>, minimum: real, termination: real) returns (w: Watch)
      requires p.Valid() && |p.centroid| == dim
      requires |p.vertices| >= 2 || Evaluated(p.vertices, evaluate)
      requires TrialWindow(check, p.vertices[0].value)
      modifies p
      ensures p.Valid() && |p.vertices| == old(|p.vertices|) && |p.centroid| == dim
      ensures p.vertices[0].value <= old(p.vertices[0].value)
      ensures w.Keep? ==> TrialWindow(w.check, p.vertices[0].value)
      ensures w.Restart? ==> w.centre == p.vertices[0].coord && w.spread2 == 4.0 * p.delta.dist
    {
      var m, added, shrunk := Step(p);
      w := Watch(check, p.vertices[0], p.delta, minimum, termination);
    }
  }

  /** After an insertion among the kept vertices the first value is no worse than before. */
  lemma InsertedBestNoWorse(v: Vertex, vs: seq<Vertex>)
    requires |vs| >= 2 && Sorted(vs)
    ensures InsertSorted(v, vs[..|vs| - 1])[0].value <= vs[0].value
  {
    SortedSplit(vs, |vs| - 1);
    InsertSortedFirst(v, vs[..|vs| - 1]);
  }

  /** Inserting an evaluated vertex among evaluated vertices leaves every vertex evaluated. */
  lemma InsertedEvaluated(v: Vertex, vs: seq<Vertex>, f: seq<real> -> real)
    requires |vs| >= 1 && v.value == f(v.coord)
    ensures Evaluated(vs, f) ==> Evaluated(InsertSorted(v, vs[..|vs| - 1]), f)
  {
    if Evaluated(vs, f) {
      forall x | x in InsertSorted(v, vs[..|vs| - 1]) ensures x.value == f(x.coord) {
        InsertSortedMember(v, vs[..|vs| - 1], x);
        if x != v {
          InPrefix(vs, |vs| - 1, x);
        }
      }
    }
  }

  /** Shrinking keeps the best vertex and evaluates every new one, so every vertex stays evaluated. */
  lemma ShrunkEvaluated(vs: seq<Vertex>, shrunk: seq<Vertex>, sorted: seq<Vertex>, f: seq<real> -> real)
    requires |shrunk| == |vs| > 0 && shrunk[0] == vs[0]
    requires forall j | 1 <= j < |shrunk| :: shrunk[j].value == f(shrunk[j].coord)
    requires multiset(sorted) == multiset(shrunk)
    ensures Evaluated(vs, f) ==> Evaluated(sorted, f)
  {
    if Evaluated(vs, f) {
      assert vs[0] in vs;
      forall x | x in sorted ensures x.value == f(x.coord) {
        assert x in multiset(shrunk);
        var j :| 0 <= j < |shrunk| && shrunk[j] == x;
      }
    }
  }
}
