/**
 * Keeping the vertices of a polytope in ascending order of value: the
 * recursive binary insertion used by `insert`, the reordering pass at the
 * end of `shrink`, and the sort used on construction.
 */
module Ordering {
  import opened Vertices

  /** Ascending by value: index 0 is the best vertex, the last one the worst. */
  predicate Sorted(vs: seq<Vertex>)
  {
    forall i, j | 0 <= i < j < |vs| :: vs[i].value <= vs[j].value
  }

  // ---------------------------------------------------------------------
  // Binary insertion

  /**
   * What the binary insertion of Support.py hands back: a list, the `None`
   * that `list.insert` returns when a probed midpoint ties with the point,
   * or the `TypeError` raised when such a `None` is concatenated to a list
   * one level up the recursion.
   */
  datatype Placement = Placed(vs: seq<Vertex>) | NoneReturned | NoneConcatenated

  /** The binary insertion as written: a tie at a probed midpoint loses the list. */
  function IntInsert(point: Vertex, vs: seq<Vertex>): (r: Placement)
    ensures r.Placed? ==> |r.vs| == |vs| + 1
    decreases |vs|
  {
    if |vs| == 0 then Placed([point])
    else
      var mid := |vs| / 2;
      if vs[mid].value > point.value then
        match IntInsert(point, vs[..mid])
        case Placed(left) => Placed(left + vs[mid..])
        case _ => NoneConcatenated
      else if vs[mid].value < point.value then
        match IntInsert(point, vs[mid + 1..])
        case Placed(right) => Placed(vs[..mid + 1] + right)
        case _ => NoneConcatenated
      else
        NoneReturned
  }

  /**
   * The binary insertion as intended: on a tie the point goes in front of
   * the probed midpoint, which is what `list.insert(mid, point)` does to
   * the list it then fails to return.
   */
  function InsertSorted(point: Vertex, vs: seq<Vertex>): (r: seq<Vertex>)
    ensures |r| == |vs| + 1
    ensures multiset(r) == multiset(vs) + multiset{point}
    decreases |vs|
  {
    if |vs| == 0 then [point]
    else
      var mid := |vs| / 2;
      if vs[mid].value > point.value then
        assert vs == vs[..mid] + vs[mid..];
        InsertSorted(point, vs[..mid]) + vs[mid..]
      else if vs[mid].value < point.value then
        assert vs == vs[..mid + 1] + vs[mid + 1..];
        vs[..mid + 1] + InsertSorted(point, vs[mid + 1..])
      else
        assert vs == vs[..mid] + vs[mid..];
        vs[..mid] + [point] + vs[mid..]
  }

  /** Two sorted runs split by a pivot value concatenate to a sorted run. */
  lemma ConcatSorted(a: seq<Vertex>, b: seq<Vertex>, pivot: real)
    requires Sorted(a) && Sorted(b)
    requires forall x | x in a :: x.value <= pivot
    requires forall y | y in b :: pivot <= y.value
    ensures Sorted(a + b)
  {
    forall i, j | 0 <= i < j < |a + b| ensures (a + b)[i].value <= (a + b)[j].value {
      if i < |a| && j >= |a| {
        assert (a + b)[i] == a[i] && (a + b)[j] == b[j - |a|];
        assert a[i] in a && b[j - |a|] in b;
      }
    }
  }

  /** The vertices of an insertion are the point and the old vertices. */
  lemma InsertSortedMember(point: Vertex, vs: seq<Vertex>, x: Vertex)
    requires x in InsertSorted(point, vs)
    ensures x == point || x in vs
  {
    assert x in multiset(InsertSorted(point, vs));
  }

  /** Inserting into a sorted list keeps it sorted. */
  lemma {:induction false} InsertSortedInOrder(point: Vertex, vs: seq<Vertex>)
    requires Sorted(vs)
    ensures Sorted(InsertSorted(point, vs))
    decreases |vs|
  {
    if |vs| > 0 {
      var mid := |vs| / 2;
      if vs[mid].value > point.value {
        assert InsertSorted(point, vs) == InsertSorted(point, vs[..mid]) + vs[mid..];
        SortedSplit(vs, mid);
        InsertSortedInOrder(point, vs[..mid]);
        InsertLeftInOrder(point, vs, mid);
      } else if vs[mid].value < point.value {
        assert InsertSorted(point, vs) == vs[..mid + 1] + InsertSorted(point, vs[mid + 1..]);
        SortedSplit(vs, mid + 1);
        InsertSortedInOrder(point, vs[mid + 1..]);
        InsertRightInOrder(point, vs, mid);
      } else {
        assert InsertSorted(point, vs) == vs[..mid] + [point] + vs[mid..];
        InsertTieInOrder(point, vs, mid);
      }
    }
  }

  /** The point went into the lower half, all of whose values stay below the probed vertex. */
  lemma InsertLeftInOrder(point: Vertex, vs: seq<Vertex>, mid: nat)
    requires Sorted(vs) && mid < |vs| && vs[mid].value > point.value
    requires Sorted(InsertSorted(point, vs[..mid]))
    ensures Sorted(InsertSorted(point, vs[..mid]) + vs[mid..])
  {
    SortedSplit(vs, mid);
    InsertBoundedAbove(point, vs[..mid], vs[mid].value);
    ConcatSorted(InsertSorted(point, vs[..mid]), vs[mid..], vs[mid].value);
  }

  /** The point went into the upper half, all of whose values stay above the probed vertex. */
  lemma InsertRightInOrder(point: Vertex, vs: seq<Vertex>, mid: nat)
    requires Sorted(vs) && mid < |vs| && vs[mid].value < point.value
    requires Sorted(InsertSorted(point, vs[mid + 1..]))
    ensures Sorted(vs[..mid + 1] + InsertSorted(point, vs[mid + 1..]))
  {
    SortedSplit(vs, mid + 1);
    SortedSplit(vs, mid);
    assert vs[mid + 1..] == vs[mid..][1..];
    InsertBoundedBelow(point, vs[mid + 1..], vs[mid].value);
    assert forall x | x in vs[..mid + 1] :: x in vs[..mid] || x == vs[mid];
    ConcatSorted(vs[..mid + 1], InsertSorted(point, vs[mid + 1..]), vs[mid].value);
  }

  /** Both sides of a sorted list split at k are sorted, and bounded by the value at k. */
  lemma SortedSplit(vs: seq<Vertex>, k: nat)
    requires Sorted(vs) && k <= |vs|
    ensures Sorted(vs[..k]) && Sorted(vs[k..])
    ensures k < |vs| ==> forall x | x in vs[..k] :: x.value <= vs[k].value
    ensures k < |vs| ==> forall y | y in vs[k..] :: vs[k].value <= y.value
  {
    forall x | x in vs[..k] ensures k < |vs| ==> x.value <= vs[k].value {
      var i :| 0 <= i < k && vs[..k][i] == x;
      assert vs[i] == x;
    }
    forall y | y in vs[k..] ensures k < |vs| ==> vs[k].value <= y.value {
      var i :| 0 <= i < |vs| - k && vs[k..][i] == y;
      assert vs[k + i] == y;
    }
  }

  /** An upper bound on the point and on a list bounds their insertion. */
  lemma InsertBoundedAbove(point: Vertex, vs: seq<Vertex>, bound: real)
    requires point.value <= bound && forall x | x in vs :: x.value <= bound
    ensures forall x | x in InsertSorted(point, vs) :: x.value <= bound
  {
    forall x | x in InsertSorted(point, vs) ensures x.value <= bound {
      InsertSortedMember(point, vs, x);
    }
  }

  /** A lower bound on the point and on a list bounds their insertion. */
  lemma InsertBoundedBelow(point: Vertex, vs: seq<Vertex>, bound: real)
    requires bound <= point.value && forall x | x in vs :: bound <= x.value
    ensures forall x | x in InsertSorted(point, vs) :: bound <= x.value
  {
    forall x | x in InsertSorted(point, vs) ensures bound <= x.value {
      InsertSortedMember(point, vs, x);
    }
  }

  /** On a tie the point goes in front of the probed vertex, between equal values. */
  lemma InsertTieInOrder(point: Vertex, vs: seq<Vertex>, mid: nat)
    requires Sorted(vs) && mid < |vs| && vs[mid].value == point.value
    ensures Sorted(vs[..mid] + [point] + vs[mid..])
  {
    var r := vs[..mid] + [point] + vs[mid..];
    assert forall i | 0 <= i < |r| :: r[i] == if i < mid then vs[i] else if i == mid then point else vs[i - 1];
    forall i, j | 0 <= i < j < |r| ensures r[i].value <= r[j].value {
      if i == mid {
        assert r[j] == vs[j - 1];
      } else if j == mid {
        assert r[i] == vs[i];
      }
    }
  }

  /** Wherever the as-written insertion returns a list, it is the intended one. */
  lemma {:induction false} IntInsertAgrees(point: Vertex, vs: seq<Vertex>)
    ensures IntInsert(point, vs).Placed? ==> IntInsert(point, vs).vs == InsertSorted(point, vs)
    decreases |vs|
  {
    if |vs| > 0 {
      var mid := |vs| / 2;
      if vs[mid].value > point.value {
        IntInsertAgrees(point, vs[..mid]);
      } else if vs[mid].value < point.value {
        IntInsertAgrees(point, vs[mid + 1..]);
      }
    }
  }

  /** When no vertex has the point's value, no probe can tie and a list comes back. */
  lemma {:induction false} IntInsertPlacesDistinct(point: Vertex, vs: seq<Vertex>)
    requires forall v | v in vs :: v.value != point.value
    ensures IntInsert(point, vs).Placed?
    decreases |vs|
  {
    if |vs| > 0 {
      var mid := |vs| / 2;
      assert vs[mid] in vs;
      if vs[mid].value > point.value {
        IntInsertPlacesDistinct(point, vs[..mid]);
      } else {
        IntInsertPlacesDistinct(point, vs[mid + 1..]);
      }
    }
  }

  /**
   * On a sorted list a vertex with the point's value is never probed
   * past: every probe keeps it in the half it recurses into, so some probe
   * ties and the list is lost.
   */
  lemma {:induction false} IntInsertTieFails(point: Vertex, vs: seq<Vertex>, t: nat)
    requires Sorted(vs) && t < |vs| && vs[t].value == point.value
    ensures !IntInsert(point, vs).Placed?
    decreases |vs|
  {
    var mid := |vs| / 2;
    if vs[mid].value > point.value {
      assert t < mid;
      SortedSlice(vs, 0, mid);
      assert vs[..mid][t] == vs[t];
      IntInsertTieFails(point, vs[..mid], t);
      LeftLost(point, vs);
    } else if vs[mid].value < point.value {
      assert t > mid;
      SortedSlice(vs, mid + 1, |vs|);
      assert vs[mid + 1..][t - (mid + 1)] == vs[t];
      IntInsertTieFails(point, vs[mid + 1..], t - (mid + 1));
      RightLost(point, vs);
    }
  }

  /** A lost list in the left half is lost for the whole list. */
  lemma LeftLost(point: Vertex, vs: seq<Vertex>)
    requires |vs| > 0 && vs[|vs| / 2].value > point.value
    requires !IntInsert(point, vs[..|vs| / 2]).Placed?
    ensures !IntInsert(point, vs).Placed?
  {
  }

  /** A lost list in the right half is lost for the whole list. */
  lemma RightLost(point: Vertex, vs: seq<Vertex>)
    requires |vs| > 0 && vs[|vs| / 2].value < point.value
    requires !IntInsert(point, vs[|vs| / 2 + 1..]).Placed?
    ensures !IntInsert(point, vs).Placed?
  {
  }

  lemma SortedSlice(vs: seq<Vertex>, lo: nat, hi: nat)
    requires Sorted(vs) && lo <= hi <= |vs|
    ensures Sorted(vs[lo..hi])
  {
    forall i, j | 0 <= i < j < hi - lo ensures vs[lo..hi][i].value <= vs[lo..hi][j].value {
      assert vs[lo..hi][i] == vs[lo + i] && vs[lo..hi][j] == vs[lo + j];
    }
  }

  /** On a sorted list the insertion as written returns a list exactly when no vertex ties with the point. */
  lemma IntInsertPlacedIff(point: Vertex, vs: seq<Vertex>)
    requires Sorted(vs)
    ensures IntInsert(point, vs).Placed? <==> forall v | v in vs :: v.value != point.value
  {
    if forall v | v in vs :: v.value != point.value {
      IntInsertPlacesDistinct(point, vs);
    } else {
      var v :| v in vs && v.value == point.value;
      var t :| 0 <= t < |vs| && vs[t] == v;
      IntInsertTieFails(point, vs, t);
    }
  }

  /**
   * A tie at the first probe: inserting a point of value 2 into vertices of
   * values 1, 2, 3 probes the middle vertex, finds an equal value and
   * returns `None` instead of a list.
   */
  lemma IntInsertTieLosesList(a: Vertex, b: Vertex, c: Vertex, point: Vertex)
    requires a.value == 1.0 && b.value == 2.0 && c.value == 3.0 && point.value == 2.0
    ensures Sorted([a, b, c])
    ensures IntInsert(point, [a, b, c]) == NoneReturned
  {
  }

  /**
   * A tie one level down: inserting a point of value 1 into vertices of
   * values 1, 2, 3 recurses into [1] and concatenates its `None` to a list.
   */
  lemma IntInsertNestedTieFails(a: Vertex, b: Vertex, c: Vertex, point: Vertex)
    requires a.value == 1.0 && b.value == 2.0 && c.value == 3.0 && point.value == 1.0
    ensures IntInsert(point, [a, b, c]) == NoneConcatenated
  {
    assert [a, b, c][..1] == [a];
  }

  /** In a sorted list the first value is the least of all. */
  lemma SortedFirstLeast(r: seq<Vertex>, x: Vertex)
    requires Sorted(r) && x in multiset(r)
    ensures r[0].value <= x.value
  {
    var i :| 0 <= i < |r| && r[i] == x;
  }

  /** The first value after an insertion is the smaller of the old first value and the point's. */
  lemma InsertSortedFirst(point: Vertex, vs: seq<Vertex>)
    requires Sorted(vs) && |vs| > 0
    ensures InsertSorted(point, vs)[0].value == (if point.value < vs[0].value then point.value else vs[0].value)
  {
    var r := InsertSorted(point, vs);
    InsertSortedInOrder(point, vs);
    assert vs[0] in multiset(vs);
    SortedFirstLeast(r, point);
    SortedFirstLeast(r, vs[0]);
    assert r[0] in multiset(r);
    if r[0] != point {
      SortedFirstLeast(vs, r[0]);
    }
  }

  // ---------------------------------------------------------------------
  // The reordering pass at the end of `shrink`

  /** One probe of the pass: swap positions i-1 and i when they are out of order. */
  function SwapIfLess(s: seq<Vertex>, i: nat): (r: seq<Vertex>)
    requires i < |s|
    ensures |r| == |s|
  {
    if 1 <= i && s[i].value < s[i - 1].value then Swap(s, i) else s
  }

  /** Positions i-1 and i exchanged. */
  function Swap(s: seq<Vertex>, i: nat): (r: seq<Vertex>)
    requires 1 <= i < |s|
    ensures |r| == |s|
  {
    seq(|s|, k requires 0 <= k < |s| => if k == i - 1 then s[i] else if k == i then s[i - 1] else s[k])
  }

  /**
   * The pass of Support.py after it has visited positions 0 .. n-1. The
   * inner `while` of the source never moves `i` back, so it swaps at most
   * once per position: this is a single bubble pass, not a sort.
   */
  function PassUpTo(s: seq<Vertex>, n: nat): (r: seq<Vertex>)
    requires n <= |s|
    ensures |r| == |s|
    decreases n
  {
    if n == 0 then s else SwapIfLess(PassUpTo(s, n - 1), n - 1)
  }

  /** The pass of Support.py, run on a list. */
  method OneSwapPass(s: seq<Vertex>) returns (r: seq<Vertex>)
    ensures r == PassUpTo(s, |s|)
  {
    r := s;
    for i := 0 to |r|
      invariant |r| == |s|
      invariant r == PassUpTo(s, i)
    {
      while i >= 1 && r[i].value < r[i - 1].value
        invariant |r| == |s|
        invariant if i >= 1 && r[i].value < r[i - 1].value then r == PassUpTo(s, i) else r == PassUpTo(s, i + 1)
        decreases if i >= 1 && r[i].value < r[i - 1].value then 1 else 0
      {
        var t := r[i - 1];
        r := r[i - 1 := r[i]];
        r := r[i := t];
      }
    }
  }

  lemma SwapPermutes(s: seq<Vertex>, j: nat)
    requires 1 <= j < |s|
    ensures multiset(s[j - 1 := s[j]][j := s[j - 1]]) == multiset(s)
  {
  }

  lemma SwapIfLessPermutes(s: seq<Vertex>, i: nat)
    requires i < |s|
    ensures multiset(SwapIfLess(s, i)) == multiset(s)
  {
    if 1 <= i && s[i].value < s[i - 1].value {
      SwapPermutes(s, i);
      assert Swap(s, i) == s[i - 1 := s[i]][i := s[i - 1]];
    }
  }

  /** The pass only reorders. */
  lemma {:induction false} PassPermutes(s: seq<Vertex>, n: nat)
    requires n <= |s|
    ensures multiset(PassUpTo(s, n)) == multiset(s)
    decreases n
  {
    if n > 0 {
      PassPermutes(s, n - 1);
      PassStepPermutes(s, n);
    }
  }

  /** Visiting one more position only reorders. */
  lemma PassStepPermutes(s: seq<Vertex>, n: nat)
    requires 0 < n <= |s|
    ensures multiset(PassUpTo(s, n)) == multiset(PassUpTo(s, n - 1))
  {
    SwapIfLessPermutes(PassUpTo(s, n - 1), n - 1);
  }

  /** After visiting n positions the largest of the first n values sits at n-1, and the rest is untouched. */
  lemma {:induction false} PassCarriesMax(s: seq<Vertex>, n: nat)
    requires 1 <= n <= |s|
    ensures forall k | 0 <= k < n :: PassUpTo(s, n)[k].value <= PassUpTo(s, n)[n - 1].value
    ensures PassUpTo(s, n)[n..] == s[n..]
    decreases n
  {
    if n > 1 {
      PassCarriesMax(s, n - 1);
      var p := PassUpTo(s, n - 1);
      var q := PassUpTo(s, n);
      assert q == SwapIfLess(p, n - 1);
      assert p[n - 1] == s[n - 1] by {
        assert p[n - 1..] == s[n - 1..];
      }
      assert q[n..] == p[n..];
      assert p[n..] == s[n..] by {
        assert p[n..] == p[n - 1..][1..];
        assert s[n..] == s[n - 1..][1..];
      }
    } else {
      assert PassUpTo(s, 1) == SwapIfLess(s, 0) == s;
    }
  }

  /** Position 0 is settled by the probe at position 1 and never touched again. */
  lemma {:induction false} PassFirst(s: seq<Vertex>, n: nat)
    requires 2 <= n <= |s|
    ensures PassUpTo(s, n)[0] == (if s[1].value < s[0].value then s[1] else s[0])
    decreases n
  {
    if n > 2 {
      PassFirst(s, n - 1);
    }
  }

  /**
   * What the pass guarantees on a whole list: a permutation, the largest
   * value last, and in front the better of the first two.
   */
  lemma PassGuarantees(s: seq<Vertex>)
    requires |s| >= 2
    ensures multiset(PassUpTo(s, |s|)) == multiset(s)
    ensures forall k | 0 <= k < |s| :: PassUpTo(s, |s|)[k].value <= PassUpTo(s, |s|)[|s| - 1].value
    ensures PassUpTo(s, |s|)[0] == (if s[1].value < s[0].value then s[1] else s[0])
  {
    PassPermutes(s, |s|);
    PassCarriesMax(s, |s|);
    PassFirst(s, |s|);
  }

  /**
   * The pass does not sort: shrunk values 0, 3, 2, 1 come out as 0, 2, 1, 3.
   */
  lemma PassLeavesUnsorted(a: Vertex, b: Vertex, c: Vertex, d: Vertex)
    requires a.value == 0.0 && b.value == 3.0 && c.value == 2.0 && d.value == 1.0
    ensures PassUpTo([a, b, c, d], 4) == [a, c, d, b]
    ensures !Sorted(PassUpTo([a, b, c, d], 4))
  {
    var s := [a, b, c, d];
    assert PassUpTo(s, 1) == s;
    assert PassUpTo(s, 2) == s;
    assert PassUpTo(s, 3) == [a, c, b, d];
    assert PassUpTo(s, 4) == [a, c, d, b];
    assert [a, c, d, b][1].value > [a, c, d, b][2].value;
  }

  // ---------------------------------------------------------------------
  // Sorting

  /**
   * Moves r0[i] down past every larger value in front of it, with
   * adjacent swaps, so that the first i + 1 values are in order.
   */
  method SinkInto(r0: seq<Vertex>, i: nat) returns (r: seq<Vertex>)
    requires i < |r0| && Sorted(r0[..i])
    ensures |r| == |r0| && multiset(r) == multiset(r0)
    ensures Sorted(r[..i + 1]) && r[i + 1..] == r0[i + 1..]
  {
    r := r0;
    var j := i;
    while j >= 1 && r[j].value < r[j - 1].value
      invariant 0 <= j <= i
      invariant |r| == |r0| && multiset(r) == multiset(r0) && r[i + 1..] == r0[i + 1..]
      invariant forall a, b | 0 <= a < b <= i && b != j :: r[a].value <= r[b].value
      invariant forall a, b | 0 <= a < j < b <= i :: r[a].value <= r[b].value
    {
      SwapPermutes(r, j);
      r := r[j - 1 := r[j]][j := r[j - 1]];
      j := j - 1;
    }
  }

  /**
   * Insertion sort by value: the sort on construction, and the pass of
   * `shrink` as intended, with the probe index moved back after each swap.
   */
  method SortByValue(s: seq<Vertex>) returns (r: seq<Vertex>)
    ensures Sorted(r)
    ensures multiset(r) == multiset(s)
  {
    r := s;
    for i := 0 to |r|
      invariant |r| == |s| && multiset(r) == multiset(s)
      invariant Sorted(r[..i])
    {
      r := SinkInto(r, i);
    }
    assert r[..|r|] == r;
  }
}
