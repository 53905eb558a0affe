/** The fast tour constructors: identity order, radial sort, nearest neighbour and triangle insertion. */
module Heuristics {
  import opened Geometry
  import opened Tours
  import opened ClosestPoint

  /** `do_random`: despite its name, the cities in index order. */
  function DoRandom(cities: seq<Point>): (r: seq<nat>)
    ensures IsTour(r, |cities|)
    ensures forall i | 0 <= i < |r| :: r[i] == i
  {
    Range(|cities|)
  }

  // ---------------------------------------------------------------- radial

  /**
   * The order a stable sort by `key` leaves ascending indices in: by key, and
   * by index among equal keys.
   */
  predicate KeyBefore(key: nat -> nat, a: nat, b: nat) {
    key(a) < key(b) || (key(a) == key(b) && a < b)
  }

  predicate SortedByKey(key: nat -> nat, s: seq<nat>) {
    forall i, j | 0 <= i < j < |s| :: KeyBefore(key, s[i], s[j])
  }

  lemma KeyBeforeTotal(key: nat -> nat, a: nat, b: nat)
    requires a != b && !KeyBefore(key, a, b)
    ensures KeyBefore(key, b, a)
  {
  }

  /** Places `x` in front of the first entry that should follow it. */
  function InsertByKey(key: nat -> nat, x: nat, s: seq<nat>): (r: seq<nat>)
    requires SortedByKey(key, s) && x !in s
    ensures SortedByKey(key, r)
    ensures multiset(r) == multiset(s) + multiset{x}
  {
    if s == [] || KeyBefore(key, x, s[0]) then [x] + s
    else
      var rest := InsertByKey(key, x, s[1..]);
      InsertAfterHead(key, x, s, rest);
      [s[0]] + rest
  }

  lemma InsertAfterHead(key: nat -> nat, x: nat, s: seq<nat>, rest: seq<nat>)
    requires SortedByKey(key, s) && x !in s && s != [] && !KeyBefore(key, x, s[0])
    requires SortedByKey(key, rest) && multiset(rest) == multiset(s[1..]) + multiset{x}
    ensures SortedByKey(key, [s[0]] + rest)
    ensures multiset([s[0]] + rest) == multiset(s) + multiset{x}
  {
    assert s == [s[0]] + s[1..];
    assert x != s[0];
    KeyBeforeTotal(key, x, s[0]);
    var r := [s[0]] + rest;
    forall i | 1 <= i < |r| ensures KeyBefore(key, s[0], r[i]) {
      assert r[i] == rest[i - 1];
      assert r[i] in multiset(rest);
      if r[i] != x {
        assert r[i] in multiset(s[1..]);
        var j :| 0 <= j < |s[1..]| && s[1..][j] == r[i];
        assert s[j + 1] == r[i];
      }
    }
    forall i, j | 0 <= i < j < |r| ensures KeyBefore(key, r[i], r[j]) {
      if i > 0 {
        assert r[i] == rest[i - 1] && r[j] == rest[j - 1];
      }
    }
  }

  /** Insertion sort of `s` by `key`, taking the entries left to right. */
  function SortByKey(key: nat -> nat, s: seq<nat>): (r: seq<nat>)
    requires Distinct(s)
    ensures SortedByKey(key, r)
    ensures multiset(r) == multiset(s)
  {
    if s == [] then []
    else
      var init := s[..|s| - 1];
      assert s == init + [s[|s| - 1]];
      var sorted := SortByKey(key, init);
      assert s[|s| - 1] !in sorted by {
        assert s[|s| - 1] !in init;
        assert s[|s| - 1] !in multiset(init);
      }
      InsertByKey(key, s[|s| - 1], sorted)
  }

  /**
   * `do_radial_algorithm`: the indices sorted stably by their angle key. The
   * key of each city (its quantised angle around the centroid) is a parameter.
   */
  function DoRadial(cities: seq<Point>, key: nat -> nat): (r: seq<nat>)
    ensures IsTour(r, |cities|)
    ensures SortedByKey(key, r)
    ensures forall i, j | 0 <= i < j < |r| :: key(r[i]) <= key(r[j])
  {
    var r := SortByKey(key, Range(|cities|));
    assert |r| == |cities| by {
      assert |multiset(r)| == |multiset(Range(|cities|))|;
    }
    forall i | 0 <= i < |r| ensures r[i] < |cities| {
      assert r[i] in multiset(Range(|cities|));
    }
    r
  }

  lemma MultisetCons(s: seq<nat>)
    requires s != []
    ensures multiset(s) == multiset{s[0]} + multiset(s[1..])
  {
    assert s == [s[0]] + s[1..];
  }

  /** The KeyBefore-least entry of a sorted sequence comes first. */
  lemma SortedHead(key: nat -> nat, a: seq<nat>, b: seq<nat>)
    requires SortedByKey(key, a) && SortedByKey(key, b) && multiset(a) == multiset(b) && a != []
    ensures b != [] && a[0] == b[0]
  {
    assert |b| == |multiset(b)| == |multiset(a)| == |a|;
    assert a[0] in multiset(b) && b[0] in multiset(a);
    var i :| 0 <= i < |b| && b[i] == a[0];
    var j :| 0 <= j < |a| && a[j] == b[0];
    assert i == 0 || KeyBefore(key, b[0], a[0]);
    assert j == 0 || KeyBefore(key, a[0], b[0]);
  }

  /** A stable sort is unique: any tour ordered by key, then by index, is DoRadial's. */
  lemma {:induction false} SortedByKeyUnique(key: nat -> nat, a: seq<nat>, b: seq<nat>)
    requires SortedByKey(key, a) && SortedByKey(key, b) && multiset(a) == multiset(b)
    ensures a == b
  {
    if a != [] {
      SortedHead(key, a, b);
      MultisetCons(a);
      MultisetCons(b);
      var x := a[0];
      assert multiset{x} + multiset(a[1..]) == multiset{x} + multiset(b[1..]);
      assert multiset(a[1..]) == multiset(b[1..]) by {
        forall y ensures multiset(a[1..])[y] == multiset(b[1..])[y] {
          assert (multiset{x} + multiset(a[1..]))[y] == (multiset{x} + multiset(b[1..]))[y];
        }
      }
      SortedByKeyUnique(key, a[1..], b[1..]);
      assert a == [a[0]] + a[1..] && b == [b[0]] + b[1..];
    } else {
      assert |b| == |multiset(b)| == 0;
    }
  }

  // ---------------------------------------------------------------- closest neighbour

  /**
   * `do_closest_neighbour`: start at city 0 and repeatedly append the closest
   * city to the last one that is not yet in the tour. It needs at least one
   * city, since `cities.len() - 1` would underflow.
   */
  method DoClosestNeighbour(cities: seq<Point>, dist: Distance) returns (vec: seq<nat>)
    requires |cities| >= 1
    ensures IsTour(vec, |cities|) && vec[0] == 0
    ensures forall k | 1 <= k < |vec| :: IsClosest(cities, cities[vec[k - 1]], vec[..k], dist, vec[k])
  {
    vec := [0];
    for step := 0 to |cities| - 1
      invariant |vec| == step + 1 && vec[0] == 0
      invariant Distinct(vec) && IndicesBelow(vec, |cities|)
      invariant forall k | 1 <= k < |vec| :: IsClosest(cities, cities[vec[k - 1]], vec[..k], dist, vec[k])
    {
      SomeIndexMissing(vec, |cities|);
      var next := FindClosestPoint(cities, cities[vec[|vec| - 1]], vec, dist);
      NearestStep(cities, dist, vec, next.value);
      vec := vec + [next.value];
    }
  }

  /** Appending the nearest unvisited city keeps the walk's invariant. */
  lemma NearestStep(cities: seq<Point>, dist: Distance, vec: seq<nat>, c: nat)
    requires |vec| > 0 && Distinct(vec) && IndicesBelow(vec, |cities|)
    requires forall k | 1 <= k < |vec| :: IsClosest(cities, cities[vec[k - 1]], vec[..k], dist, vec[k])
    requires IsClosest(cities, cities[vec[|vec| - 1]], vec, dist, c)
    ensures Distinct(vec + [c]) && IndicesBelow(vec + [c], |cities|)
    ensures forall k | 1 <= k < |vec| + 1 ::
      IsClosest(cities, cities[(vec + [c])[k - 1]], (vec + [c])[..k], dist, (vec + [c])[k])
  {
    var w := vec + [c];
    assert forall k | 1 <= k < |vec| :: w[..k] == vec[..k];
    assert w[..|vec|] == vec;
  }

  // ---------------------------------------------------------------- triangle insertion

  /** The cycle edge that position i closes: from the entry before it (the last one for i = 0) to vec[i]. */
  function EdgeMidpoint(cities: seq<Point>, vec: seq<nat>, i: nat): Point
    requires i < |vec| && IndicesBelow(vec, |cities|)
  {
    var first := vec[if i > 0 then i - 1 else |vec| - 1];
    Average(cities[first], cities[vec[i]])
  }

  /** How far city c, the one picked for edge i, is from that edge's midpoint. */
  function EdgeScore(cities: seq<Point>, dist: Distance, vec: seq<nat>, i: nat, c: nat): real
    requires i < |vec| && IndicesBelow(vec, |cities|) && c < |cities|
  {
    dist(EdgeMidpoint(cities, vec, i), cities[c])
  }

  /**
   * Inserting city c at position i is the scan's choice: c is the closest
   * city to the midpoint of edge i, no edge scores less, and every earlier
   * edge scores more.
   */
  ghost predicate IsBestInsertion(cities: seq<Point>, dist: Distance, vec: seq<nat>, i: nat, c: nat)
    requires IndicesBelow(vec, |cities|)
  {
    && i < |vec|
    && IsClosest(cities, EdgeMidpoint(cities, vec, i), vec, dist, c)
    && (forall j, cj | 0 <= j < |vec| && IsClosest(cities, EdgeMidpoint(cities, vec, j), vec, dist, cj) ::
          EdgeScore(cities, dist, vec, j, cj) >= EdgeScore(cities, dist, vec, i, c))
    && (forall j, cj | 0 <= j < i && IsClosest(cities, EdgeMidpoint(cities, vec, j), vec, dist, cj) ::
          EdgeScore(cities, dist, vec, j, cj) > EdgeScore(cities, dist, vec, i, c))
  }

  /** One round of the triangle algorithm turns `vec` into `next`. */
  ghost predicate TriangleStep(cities: seq<Point>, dist: Distance, vec: seq<nat>, next: seq<nat>)
    requires IndicesBelow(vec, |cities|)
  {
    exists i: nat, c: nat | IsBestInsertion(cities, dist, vec, i, c) :: next == vec[..i] + [c] + vec[i..]
  }

  /** The scan's choice of edge and city is determined by its inputs. */
  lemma BestInsertionIsUnique(cities: seq<Point>, dist: Distance, vec: seq<nat>, i: nat, c: nat, i2: nat, c2: nat)
    requires IndicesBelow(vec, |cities|)
    requires IsBestInsertion(cities, dist, vec, i, c) && IsBestInsertion(cities, dist, vec, i2, c2)
    ensures i == i2 && c == c2
  {
    // an earlier optimal edge would score strictly more than the later one, and no more
    assert i <= i2 && i2 <= i;
    ClosestIsUnique(cities, EdgeMidpoint(cities, vec, i), vec, dist, c, c2);
  }

  /** A round of the triangle algorithm has exactly one outcome. */
  lemma TriangleStepIsDeterministic(cities: seq<Point>, dist: Distance, vec: seq<nat>, a: seq<nat>, b: seq<nat>)
    requires IndicesBelow(vec, |cities|)
    requires TriangleStep(cities, dist, vec, a) && TriangleStep(cities, dist, vec, b)
    ensures a == b
  {
    var i: nat, c: nat :| IsBestInsertion(cities, dist, vec, i, c) && a == vec[..i] + [c] + vec[i..];
    var i2: nat, c2: nat :| IsBestInsertion(cities, dist, vec, i2, c2) && b == vec[..i2] + [c2] + vec[i2..];
    BestInsertionIsUnique(cities, dist, vec, i, c, i2, c2);
  }

  /** The rounds of a run, from [0, 1, 2] to the returned tour. */
  ghost predicate TriangleRun(cities: seq<Point>, dist: Distance, trace: seq<seq<nat>>)
  {
    && |trace| > 0
    && trace[0] == [0, 1, 2]
    && (forall k | 0 <= k < |trace| :: IndicesBelow(trace[k], |cities|))
    && (forall k | 0 <= k < |trace| - 1 :: TriangleStep(cities, dist, trace[k], trace[k + 1]))
  }

  lemma InsertKeepsTour(vec: seq<nat>, i: nat, c: nat, n: nat)
    requires Distinct(vec) && IndicesBelow(vec, n) && i <= |vec| && c < n && c !in vec
    ensures Distinct(vec[..i] + [c] + vec[i..]) && IndicesBelow(vec[..i] + [c] + vec[i..], n)
  {
    var r := vec[..i] + [c] + vec[i..];
    forall a | 0 <= a < |r| ensures (a < i ==> r[a] == vec[a]) && (a > i ==> r[a] == vec[a - 1]) && (a == i ==> r[a] == c) {
    }
    forall a, b | 0 <= a < b < |r| ensures r[a] != r[b] {
      if a != i && b != i {
        var ia := if a < i then a else a - 1;
        var ib := if b < i then b else b - 1;
        assert r[a] == vec[ia] && r[b] == vec[ib];
      } else if a == i {
        assert r[b] == vec[b - 1];
      } else {
        assert r[a] == vec[a];
      }
    }
  }

  /**
   * The scan over the edges of the cycle in one round of the triangle
   * algorithm: for each edge the closest city outside the cycle to its
   * midpoint, keeping the first edge with the smallest distance (the running
   * minimum starts at f64::INFINITY, which `closestDis == None` stands for).
   */
  method BestInsertion(cities: seq<Point>, dist: Distance, vec: seq<nat>)
    returns (closestInterpoint: nat, closestCityIdx: nat)
    requires 0 < |vec| < |cities| && Distinct(vec) && IndicesBelow(vec, |cities|)
    ensures IsBestInsertion(cities, dist, vec, closestInterpoint, closestCityIdx)
  {
    SomeIndexMissing(vec, |cities|);
    closestInterpoint := 0;
    var closestDis: Option<real> := None;
    closestCityIdx := 0;
    for i := 0 to |vec|
      invariant closestDis.None? <==> i == 0
      invariant i > 0 ==>
        && closestInterpoint < i
        && IsClosest(cities, EdgeMidpoint(cities, vec, closestInterpoint), vec, dist, closestCityIdx)
        && closestDis == Some(EdgeScore(cities, dist, vec, closestInterpoint, closestCityIdx))
        && (forall j, cj | 0 <= j < i && IsClosest(cities, EdgeMidpoint(cities, vec, j), vec, dist, cj) ::
              EdgeScore(cities, dist, vec, j, cj) >= closestDis.value)
        && (forall j, cj | 0 <= j < closestInterpoint && IsClosest(cities, EdgeMidpoint(cities, vec, j), vec, dist, cj) ::
              EdgeScore(cities, dist, vec, j, cj) > closestDis.value)
    {
      var first := vec[if i > 0 then i - 1 else |vec| - 1];
      var second := vec[i];
      var avgPoint := Average(cities[first], cities[second]);
      var closePoint := FindClosestPoint(cities, avgPoint, vec, dist);
      var closePointIdx := closePoint.value;
      var closeDis := dist(avgPoint, cities[closePointIdx]);
      forall cj | IsClosest(cities, avgPoint, vec, dist, cj) ensures cj == closePointIdx {
        ClosestIsUnique(cities, avgPoint, vec, dist, cj, closePointIdx);
      }
      if closestDis.None? || closeDis < closestDis.value {
        closestDis := Some(closeDis);
        closestInterpoint := i;
        closestCityIdx := closePointIdx;
      }
    }
  }

  /**
   * `do_triangle_algorithm`: below four cities the index order; otherwise grow
   * the cycle [0, 1, 2] one city at a time, inserting at the first edge whose
   * midpoint is closest to a city not yet in the cycle.
   */
  method DoTriangle(cities: seq<Point>, dist: Distance) returns (vec: seq<nat>, ghost trace: seq<seq<nat>>)
    ensures IsTour(vec, |cities|)
    ensures |cities| <= 3 ==> vec == Range(|cities|)
    ensures |cities| > 3 ==> TriangleRun(cities, dist, trace) && |trace| == |cities| - 2 && trace[|trace| - 1] == vec
  {
    var n := |cities|;
    if n <= 3 {
      vec := Range(n);
      trace := [];
      return;
    }
    vec := [0, 1, 2];
    trace := [vec];
    for round := 0 to n - 3
      invariant |vec| == round + 3
      invariant Distinct(vec) && IndicesBelow(vec, n)
      invariant TriangleRun(cities, dist, trace) && |trace| == round + 1 && trace[|trace| - 1] == vec
    {
      SomeIndexMissing(vec, n);
      var closestInterpoint, closestCityIdx := BestInsertion(cities, dist, vec);
      ghost var prev := vec;
      vec := vec[..closestInterpoint] + [closestCityIdx] + vec[closestInterpoint..];
      InsertKeepsTour(prev, closestInterpoint, closestCityIdx, n);
      assert TriangleStep(cities, dist, prev, vec);
      trace := trace + [vec];
    }
  }
}
