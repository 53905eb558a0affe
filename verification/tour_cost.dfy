/** The cost of a closed tour (`dis_in_path`). */
module TourCost {
  import opened Geometry
  import opened Tours

  /** Sum of the edges between consecutive entries of `v`, left to right. */
  function PathCost(cities: seq<Point>, v: seq<nat>, dist: Distance): real
    requires IndicesBelow(v, |cities|)
  {
    if |v| <= 1 then 0.0
    else PathCost(cities, v[..|v| - 1], dist) + dist(cities[v[|v| - 2]], cities[v[|v| - 1]])
  }

  /**
   * The cost of the closed tour `v`: the closing edge, measured from the first
   * entry to the last, plus every edge between consecutive entries.
   */
  function Cost(cities: seq<Point>, v: seq<nat>, dist: Distance): real
    requires |v| > 0 && IndicesBelow(v, |cities|)
  {
    dist(cities[v[0]], cities[v[|v| - 1]]) + PathCost(cities, v, dist)
  }

  /** `dis_in_path`: the closing edge first, then the consecutive edges in order. */
  method DisInPath(vec: seq<nat>, cities: seq<Point>, dist: Distance) returns (totDis: real)
    requires |vec| > 0 && IndicesBelow(vec, |cities|)
    ensures totDis == Cost(cities, vec, dist)
  {
    totDis := dist(cities[vec[0]], cities[vec[|vec| - 1]]);
    for i := 0 to |vec| - 1
      invariant totDis == dist(cities[vec[0]], cities[vec[|vec| - 1]]) + PathCost(cities, vec[..i + 1], dist)
    {
      assert vec[..i + 2][..i + 1] == vec[..i + 1];
      totDis := totDis + dist(cities[vec[i]], cities[vec[i + 1]]);
    }
    assert vec[..|vec|] == vec;
  }

  /** A one-city tour is a self-loop and costs nothing. */
  lemma CostOfSingleton(cities: seq<Point>, c: nat, dist: Distance)
    requires ZeroOnSelf(dist) && c < |cities|
    ensures Cost(cities, [c], dist) == 0.0
  {
  }

  lemma {:induction false} PathCostNonNegative(cities: seq<Point>, v: seq<nat>, dist: Distance)
    requires NonNegative(dist) && IndicesBelow(v, |cities|)
    ensures PathCost(cities, v, dist) >= 0.0
  {
    if |v| > 1 {
      PathCostNonNegative(cities, v[..|v| - 1], dist);
    }
  }

  lemma CostNonNegative(cities: seq<Point>, v: seq<nat>, dist: Distance)
    requires NonNegative(dist) && |v| > 0 && IndicesBelow(v, |cities|)
    ensures Cost(cities, v, dist) >= 0.0
  {
    PathCostNonNegative(cities, v, dist);
  }

  /** The path cost splits at any shared entry. */
  lemma {:induction false} PathCostAppend(cities: seq<Point>, u: seq<nat>, w: seq<nat>, dist: Distance)
    requires |u| > 0 && |w| > 0 && u[|u| - 1] == w[0]
    requires IndicesBelow(u, |cities|) && IndicesBelow(w, |cities|)
    ensures IndicesBelow(u + w[1..], |cities|)
    ensures PathCost(cities, u + w[1..], dist) == PathCost(cities, u, dist) + PathCost(cities, w, dist)
    decreases |w|
  {
    var v := u + w[1..];
    assert IndicesBelow(v, |cities|) by {
      forall i | 0 <= i < |v| ensures v[i] < |cities| {
        if i >= |u| { assert v[i] == w[i - |u| + 1]; }
      }
    }
    if |w| > 1 {
      var w' := w[..|w| - 1];
      PathCostAppend(cities, u, w', dist);
      assert v[..|v| - 1] == u + w'[1..];
      assert v[|v| - 2] == w[|w| - 2] by {
        if |w| == 2 { assert v[|v| - 2] == u[|u| - 1]; }
      }
    } else {
      assert v == u;
    }
  }

  /** A path of one edge costs that edge. */
  lemma PathCostOfEdge(cities: seq<Point>, a: nat, b: nat, dist: Distance)
    requires a < |cities| && b < |cities|
    ensures PathCost(cities, [a, b], dist) == dist(cities[a], cities[b])
  {
    assert [a, b][..1] == [a];
  }

  lemma ReverseSnoc(u: seq<nat>, a: nat)
    ensures Reverse(u + [a]) == [a] + Reverse(u)
  {
    var l, r := Reverse(u + [a]), [a] + Reverse(u);
    assert |l| == |r|;
    forall i | 0 <= i < |l| ensures l[i] == r[i] {
      if i > 0 { assert r[i] == Reverse(u)[i - 1] == u[|u| - i]; }
    }
  }

  /** Putting city a in front of a path adds the edge from a to the old first city. */
  lemma PathCostCons(cities: seq<Point>, a: nat, w: seq<nat>, dist: Distance)
    requires a < |cities| && |w| > 0 && IndicesBelow(w, |cities|)
    ensures IndicesBelow([a] + w, |cities|)
    ensures PathCost(cities, [a] + w, dist) == dist(cities[a], cities[w[0]]) + PathCost(cities, w, dist)
  {
    assert IndicesBelow([a] + w, |cities|) by {
      forall i | 0 <= i < |w| + 1 ensures ([a] + w)[i] < |cities| {
        if i > 0 { assert ([a] + w)[i] == w[i - 1]; }
      }
    }
    PathCostAppend(cities, [a, w[0]], w, dist);
    assert [a, w[0]] + w[1..] == [a] + w;
    PathCostOfEdge(cities, a, w[0], dist);
  }

  /** Walking a path backwards costs the same when the distance is symmetric. */
  lemma {:induction false} PathCostReverse(cities: seq<Point>, v: seq<nat>, dist: Distance)
    requires Symmetric(dist) && IndicesBelow(v, |cities|)
    ensures IndicesBelow(Reverse(v), |cities|)
    ensures PathCost(cities, Reverse(v), dist) == PathCost(cities, v, dist)
  {
    if |v| > 1 {
      var u := v[..|v| - 1];
      var a, z := v[|v| - 1], v[|v| - 2];
      var ru := Reverse(u);
      PathCostReverse(cities, u, dist);
      assert v == u + [a];
      ReverseSnoc(u, a);
      assert ru[0] == z;
      PathCostCons(cities, a, ru, dist);
      assert dist(cities[a], cities[z]) == dist(cities[z], cities[a]);
    } else {
      assert Reverse(v) == v;
    }
  }

  /** Reversing a tour does not change its cost when the distance is symmetric. */
  lemma CostReverse(cities: seq<Point>, v: seq<nat>, dist: Distance)
    requires Symmetric(dist) && |v| > 0 && IndicesBelow(v, |cities|)
    ensures IndicesBelow(Reverse(v), |cities|)
    ensures Cost(cities, Reverse(v), dist) == Cost(cities, v, dist)
  {
    PathCostReverse(cities, v, dist);
  }

  /** Moving the first city to the end does not change the cost of a tour. */
  lemma CostRotateOne(cities: seq<Point>, v: seq<nat>, dist: Distance)
    requires Symmetric(dist) && |v| > 0 && IndicesBelow(v, |cities|)
    ensures IndicesBelow(Rotate(v, 1), |cities|)
    ensures Cost(cities, Rotate(v, 1), dist) == Cost(cities, v, dist)
  {
    var r := Rotate(v, 1);
    if |v| > 1 {
      var w := v[1..];
      var a, z := v[0], w[|w| - 1];
      // v is the edge (a, w[0]) followed by w; r is w followed by the edge (z, a)
      PathCostAppend(cities, [a, w[0]], w, dist);
      assert [a, w[0]] + w[1..] == v;
      PathCostOfEdge(cities, a, w[0], dist);
      PathCostAppend(cities, w, [z, a], dist);
      assert w + [z, a][1..] == r;
      PathCostOfEdge(cities, z, a, dist);
      assert r[0] == w[0] && r[|r| - 1] == a && v[|v| - 1] == z;
    } else {
      assert r == v;
    }
  }

  /** Tour cost is invariant under every cyclic rotation when the distance is symmetric. */
  lemma {:induction false} CostRotate(cities: seq<Point>, v: seq<nat>, k: nat, dist: Distance)
    requires Symmetric(dist) && 0 < |v| && k <= |v| && IndicesBelow(v, |cities|)
    ensures IndicesBelow(Rotate(v, k), |cities|)
    ensures Cost(cities, Rotate(v, k), dist) == Cost(cities, v, dist)
  {
    if k == 0 {
      assert Rotate(v, k) == v;
    } else {
      CostRotate(cities, v, k - 1, dist);
      var u := Rotate(v, k - 1);
      CostRotateOne(cities, u, dist);
      assert Rotate(u, 1) == Rotate(v, k);
    }
  }
}
