/**
 * `do_brute_force`: city 0 is fixed first, its two neighbours `start < end` are
 * chosen among the others, and every ordering of the remaining n-3 cities is
 * placed between them.
 */
module BruteForce {
  import opened Geometry
  import opened Tours
  import opened TourCost
  import opened Combinatorics

  /** f64::MAX, the initial best distance, exactly: (2^53 - 1) * 2^971. */
  const F64Max: real := 179769313486231570814527423731704356798070567525844996598917476803157260780028538760589558632766878171540458953514382464234321326889464182768467546703537516986049910576551282076245490090389328944075868508455133942304583236903222948165808559332123348274797826204144723168738177180919299881250404026184124858368.0

  /** `tot_ops`, the operation count computed before the search. */
  function TotOps(n: nat): nat
    requires n >= 3
  {
    (n - 1) * (n - 2) / 2 * Factorial(n - 3)
  }

  /**
   * The index the permutation value `x` stands for: values are shifted past
   * city 0, then past `start`, then past `end`.
   */
  function Remap(x: nat, start: nat, end: nat): (v: nat)
    requires 1 <= start < end
    ensures x + 1 <= v <= x + 3
    ensures v != start && v != end
  {
    x + 1 + (if x + 1 >= start then 1 else 0) + (if x + 2 >= end then 1 else 0)
  }

  /** The permutation value that Remap sends to `v`. */
  function Unmap(v: nat, start: nat, end: nat): (x: nat)
    requires 1 <= start < end && 1 <= v && v != start && v != end
    ensures Remap(x, start, end) == v
    ensures x + 3 <= (if v > end then v else end)
  {
    v - 1 - (if v > start then 1 else 0) - (if v > end then 1 else 0)
  }

  lemma RemapIncreasing(x: nat, y: nat, start: nat, end: nat)
    requires 1 <= start < end && x < y
    ensures Remap(x, start, end) < Remap(y, start, end)
  {
  }

  /** The index shift of `do_brute_force` (src/main.rs:64) applied to a whole permutation. */
  function MapRemap(p: seq<nat>, start: nat, end: nat): (r: seq<nat>)
    requires 1 <= start < end
    ensures |r| == |p| && forall k | 0 <= k < |p| :: r[k] == Remap(p[k], start, end)
  {
    seq(|p|, k requires 0 <= k < |p| => Remap(p[k], start, end))
  }

  /** The tour tried for neighbours `start`, `end` and the ordering `p` of the rest. */
  function Candidate(start: nat, end: nat, p: seq<nat>): seq<nat>
    requires 1 <= start < end
  {
    [0, start] + MapRemap(p, start, end) + [end]
  }

  /** The index shift (src/main.rs:64) sends a tour of 0..n-4 one-to-one into {1..n-1} minus {start, end}. */
  lemma MapRemapFacts(n: nat, start: nat, end: nat, p: seq<nat>)
    requires 1 <= start < end < n && IsTour(p, n - 3)
    ensures Distinct(MapRemap(p, start, end)) && IndicesBelow(MapRemap(p, start, end), n)
    ensures forall v | v in MapRemap(p, start, end) :: 0 < v && v != start && v != end
  {
    var m := MapRemap(p, start, end);
    forall i, j | 0 <= i < j < |m| ensures m[i] != m[j] {
      if p[i] < p[j] {
        RemapIncreasing(p[i], p[j], start, end);
      } else {
        RemapIncreasing(p[j], p[i], start, end);
      }
    }
  }

  /** Every candidate is a tour. */
  lemma CandidateIsTour(n: nat, start: nat, end: nat, p: seq<nat>)
    requires 1 <= start < end < n && IsTour(p, n - 3)
    ensures IsTour(Candidate(start, end, p), n)
  {
    var c := Candidate(start, end, p);
    var m := MapRemap(p, start, end);
    MapRemapFacts(n, start, end, p);
    assert c == [0, start] + m + [end];
    forall i, j | 0 <= i < j < |c| ensures c[i] != c[j] {
      if i >= 2 && j < |c| - 1 {
        assert c[i] == m[i - 2] && c[j] == m[j - 2];
      } else if i >= 2 {
        assert c[i] == m[i - 2] && c[i] in m;
      } else if j < |c| - 1 && j >= 2 {
        assert c[j] == m[j - 2] && c[j] in m;
      }
    }
    forall i | 0 <= i < |c| ensures c[i] < n {
      if 2 <= i < |c| - 1 {
        assert c[i] == m[i - 2];
      }
    }
  }

  function AllPermutations(n: nat): seq<seq<nat>>
    requires n >= 3
  {
    Permutations(Range(n - 3))
  }

  predicate AllTours(cs: seq<seq<nat>>, n: nat) {
    forall k | 0 <= k < |cs| :: IsTour(cs[k], n)
  }

  lemma AllPermutationsAreTours(n: nat)
    requires n >= 3
    ensures AllTours(AllPermutations(n), n - 3)
  {
    var ps := AllPermutations(n);
    forall k | 0 <= k < |ps| ensures IsTour(ps[k], n - 3) {
      PermutationsSound(Range(n - 3), k);
      forall i | 0 <= i < |ps[k]| ensures ps[k][i] < n - 3 {
        assert ps[k][i] in Range(n - 3);
      }
    }
  }

  /** The candidates for one pair of neighbours, one per permutation, in enumeration order. */
  function PermBlock(n: nat, start: nat, end: nat): (cs: seq<seq<nat>>)
    requires 1 <= start < end < n
    ensures |cs| == Factorial(n - 3)
    ensures AllTours(cs, n)
  {
    var ps := AllPermutations(n);
    PermutationsCount(Range(n - 3));
    AllPermutationsAreTours(n);
    var cs := seq(|ps|, k requires 0 <= k < |ps| => Candidate(start, end, ps[k]));
    assert forall k | 0 <= k < |ps| :: IsTour(cs[k], n) by {
      forall k | 0 <= k < |ps| ensures IsTour(cs[k], n) {
        CandidateIsTour(n, start, end, ps[k]);
      }
    }
    cs
  }

  /** The candidates for `start` with the neighbours start+1..end-1. */
  function EndsBefore(n: nat, start: nat, end: nat): (cs: seq<seq<nat>>)
    requires 1 <= start < end <= n
    ensures AllTours(cs, n)
    decreases end
  {
    if end == start + 1 then []
    else EndsBefore(n, start, end - 1) + PermBlock(n, start, end - 1)
  }

  /** The candidates whose first neighbour is below `start`. */
  function StartsBefore(n: nat, start: nat): (cs: seq<seq<nat>>)
    requires 1 <= start <= n
    ensures AllTours(cs, n)
  {
    if start == 1 then []
    else StartsBefore(n, start - 1) + EndsBefore(n, start - 1, n)
  }

  /** Every tour the search tries, in the order it tries them. */
  function Candidates(n: nat): (cs: seq<seq<nat>>)
    requires n >= 3
    ensures AllTours(cs, n)
  {
    StartsBefore(n, n)
  }

  /** Number of (start, end) pairs whose start is below `start`. */
  function PairsBefore(n: nat, start: nat): nat
    requires 1 <= start <= n
  {
    if start == 1 then 0 else PairsBefore(n, start - 1) + (n - start)
  }

  lemma {:induction false} PairsBeforeClosedForm(n: nat, start: nat)
    requires 1 <= start <= n
    ensures 2 * PairsBefore(n, start) == (start - 1) * (2 * n - 2 - start)
  {
    if start > 1 {
      PairsBeforeClosedForm(n, start - 1);
      var s := start;
      assert (s - 2) * (2 * n - 1 - s) + 2 * (n - s) == (s - 1) * (2 * n - 2 - s);
    }
  }

  lemma {:induction false} EndsBeforeCount(n: nat, start: nat, end: nat)
    requires 3 <= n && 1 <= start < end <= n
    ensures |EndsBefore(n, start, end)| == (end - start - 1) * Factorial(n - 3)
    decreases end
  {
    if end > start + 1 {
      EndsBeforeCount(n, start, end - 1);
      MulStep(end - start - 1, Factorial(n - 3));
    }
  }

  lemma Distribute(a: nat, b: nat, f: nat)
    ensures (a + b) * f == a * f + b * f
  {
  }

  lemma {:induction false} StartsBeforeCount(n: nat, start: nat)
    requires 3 <= n && 1 <= start <= n
    ensures |StartsBefore(n, start)| == PairsBefore(n, start) * Factorial(n - 3)
  {
    if start > 1 {
      StartsBeforeCount(n, start - 1);
      EndsBeforeCount(n, start - 1, n);
      Distribute(PairsBefore(n, start - 1), n - start, Factorial(n - 3));
    }
  }

  /** The search tries exactly `tot_ops` tours; (n-1)(n-2) is even, so the halving is exact. */
  lemma CandidateCount(n: nat)
    requires n >= 3
    ensures (n - 1) * (n - 2) % 2 == 0
    ensures |Candidates(n)| == TotOps(n)
    ensures |Candidates(n)| == (n - 1) * (n - 2) / 2 * Factorial(n - 3)
  {
    StartsBeforeCount(n, n);
    PairsBeforeClosedForm(n, n);
  }

  lemma {:induction false} InEndsBefore(n: nat, start: nat, end: nat, last: nat, c: seq<nat>)
    requires 1 <= start < end < last <= n
    requires c in PermBlock(n, start, end)
    ensures c in EndsBefore(n, start, last)
    decreases last
  {
    if last > end + 1 {
      InEndsBefore(n, start, end, last - 1, c);
    }
  }

  lemma {:induction false} InStartsBefore(n: nat, start: nat, last: nat, c: seq<nat>)
    requires 1 <= start < last <= n
    requires c in EndsBefore(n, start, n)
    ensures c in StartsBefore(n, last)
    decreases last
  {
    if last > start + 1 {
      InStartsBefore(n, start, last - 1, c);
    }
  }

  /** Every choice of neighbours and every ordering of the rest is tried. */
  lemma CandidateEnumerated(n: nat, start: nat, end: nat, p: seq<nat>)
    requires 1 <= start < end < n && p in AllPermutations(n)
    ensures Candidate(start, end, p) in Candidates(n)
  {
    var k :| 0 <= k < |AllPermutations(n)| && AllPermutations(n)[k] == p;
    assert PermBlock(n, start, end)[k] == Candidate(start, end, p);
    InEndsBefore(n, start, end, n, Candidate(start, end, p));
    InStartsBefore(n, start, n, Candidate(start, end, p));
  }

  /**
   * `best` is the first tour of `cands` whose cost is minimal and below
   * f64::MAX, or empty when no tour costs less than f64::MAX.
   */
  ghost predicate IsFirstMinimum(cities: seq<Point>, dist: Distance, cands: seq<seq<nat>>, best: seq<nat>)
    requires |cities| > 0 && AllTours(cands, |cities|)
  {
    if best == [] then
      forall j | 0 <= j < |cands| :: Cost(cities, cands[j], dist) >= F64Max
    else
      exists k | 0 <= k < |cands| :: FirstMinimumAt(cities, dist, cands, k) && cands[k] == best
  }

  ghost predicate FirstMinimumAt(cities: seq<Point>, dist: Distance, cands: seq<seq<nat>>, k: nat)
    requires |cities| > 0 && AllTours(cands, |cities|) && k < |cands|
  {
    && Cost(cities, cands[k], dist) < F64Max
    && (forall j | 0 <= j < |cands| :: Cost(cities, cands[k], dist) <= Cost(cities, cands[j], dist))
    && (forall j | 0 <= j < k :: Cost(cities, cands[j], dist) > Cost(cities, cands[k], dist))
  }

  lemma TakeOneMore(s: seq<seq<nat>>, k: nat)
    requires k < |s|
    ensures s[..k + 1] == s[..k] + [s[k]]
  {
  }

  /** The loop state after trying the tours `done`. */
  ghost predicate Searched(cities: seq<Point>, dist: Distance, done: seq<seq<nat>>,
                           best: seq<nat>, bestDis: real, bestAt: nat)
  {
    && |cities| > 0
    && AllTours(done, |cities|)
    && (best == [] ==> bestDis == F64Max && forall j | 0 <= j < |done| :: Cost(cities, done[j], dist) >= F64Max)
    && (best != [] ==> bestAt < |done| && done[bestAt] == best && bestDis == Cost(cities, best, dist)
                       && FirstMinimumAt(cities, dist, done, bestAt))
  }

  lemma SearchedStep(cities: seq<Point>, dist: Distance, done: seq<seq<nat>>,
                     best: seq<nat>, bestDis: real, bestAt: nat, vec: seq<nat>, totDis: real)
    requires |cities| >= 3 && Searched(cities, dist, done, best, bestDis, bestAt)
    requires IsTour(vec, |cities|) && totDis == Cost(cities, vec, dist)
    ensures totDis < bestDis ==> Searched(cities, dist, done + [vec], vec, totDis, |done|)
    ensures !(totDis < bestDis) ==> Searched(cities, dist, done + [vec], best, bestDis, bestAt)
  {
    var done' := done + [vec];
    assert forall j | 0 <= j < |done| :: done'[j] == done[j];
  }

  lemma SearchedEnd(cities: seq<Point>, dist: Distance, best: seq<nat>, bestDis: real, bestAt: nat)
    requires |cities| >= 3 && Searched(cities, dist, Candidates(|cities|), best, bestDis, bestAt)
    ensures IsFirstMinimum(cities, dist, Candidates(|cities|), best)
  {
  }

  lemma FirstEnd(n: nat, start: nat)
    requires 1 <= start < n
    ensures StartsBefore(n, start) + EndsBefore(n, start, start + 1) == StartsBefore(n, start)
  {
  }

  lemma NextEnd(n: nat, start: nat, end: nat, done0: seq<seq<nat>>, done: seq<seq<nat>>)
    requires 1 <= start < end < n
    requires done0 == StartsBefore(n, start) + EndsBefore(n, start, end)
    requires done == done0 + PermBlock(n, start, end)
    ensures done == StartsBefore(n, start) + EndsBefore(n, start, end + 1)
  {
  }

  lemma NextStart(n: nat, start: nat, done: seq<seq<nat>>)
    requires 1 <= start < n
    requires done == StartsBefore(n, start) + EndsBefore(n, start, n)
    ensures done == StartsBefore(n, start + 1)
  {
  }

  /**
   * The innermost loop of `do_brute_force`: try every ordering between the
   * neighbours `start` and `end`, keeping the first strictly cheaper tour.
   */
  method TryOrderings(cities: seq<Point>, dist: Distance, start: nat, end: nat, perms: seq<seq<nat>>,
                      best0: seq<nat>, bestDis0: real, ghost done0: seq<seq<nat>>, ghost bestAt0: nat)
    returns (best: seq<nat>, bestDis: real, ghost done: seq<seq<nat>>, ghost bestAt: nat)
    requires 1 <= start < end < |cities| && perms == AllPermutations(|cities|)
    requires Searched(cities, dist, done0, best0, bestDis0, bestAt0)
    ensures done == done0 + PermBlock(|cities|, start, end)
    ensures Searched(cities, dist, done, best, bestDis, bestAt)
  {
    best, bestDis, done, bestAt := best0, bestDis0, done0, bestAt0;
    ghost var block := PermBlock(|cities|, start, end);
    for k := 0 to |perms|
      invariant done == done0 + block[..k]
      invariant Searched(cities, dist, done, best, bestDis, bestAt)
    {
      var permutation := perms[k];
      var vec: seq<nat> := seq(|permutation|, i requires 0 <= i < |permutation| => Remap(permutation[i], start, end));
      vec := [start] + vec;
      vec := [0] + vec;
      vec := vec + [end];
      assert vec == block[k] by {
        assert vec == Candidate(start, end, perms[k]);
      }
      var totDis := DisInPath(vec, cities, dist);
      SearchedStep(cities, dist, done, best, bestDis, bestAt, vec, totDis);
      if totDis < bestDis {
        bestDis := totDis;
        best := vec;
        bestAt := |done|;
      }
      done := done + [vec];
      assert done == done0 + block[..k + 1] by {
        TakeOneMore(block, k);
      }
    }
    assert block[..|perms|] == block;
  }

  /** `do_brute_force`; it needs three cities, since n-3 would underflow. */
  method DoBruteForce(cities: seq<Point>, dist: Distance) returns (best: seq<nat>)
    requires |cities| >= 3
    ensures IsFirstMinimum(cities, dist, Candidates(|cities|), best)
  {
    var n := |cities|;
    best := [];
    var bestDis := F64Max;
    var perms := AllPermutations(n);
    ghost var done: seq<seq<nat>> := [];
    ghost var bestAt: nat := 0;
    for start := 1 to n
      invariant done == StartsBefore(n, start)
      invariant Searched(cities, dist, done, best, bestDis, bestAt)
    {
      FirstEnd(n, start);
      for end := start + 1 to n
        invariant done == StartsBefore(n, start) + EndsBefore(n, start, end)
        invariant Searched(cities, dist, done, best, bestDis, bestAt)
      {
        ghost var done0 := done;
        best, bestDis, done, bestAt := TryOrderings(cities, dist, start, end, perms, best, bestDis, done, bestAt);
        NextEnd(n, start, end, done0, done);
      }
      NextStart(n, start, done);
    }
    SearchedEnd(cities, dist, best, bestDis, bestAt);
  }

  /** A tour that starts at city 0 with its second city below its last is a candidate. */
  lemma CanonicalIsCandidate(n: nat, w: seq<nat>)
    requires n >= 3 && IsTour(w, n) && w[0] == 0 && w[1] < w[n - 1]
    ensures w in Candidates(n)
  {
    var start, end := w[1], w[n - 1];
    var mid := w[2..n - 1];
    assert forall k | 0 <= k < |mid| :: mid[k] == w[k + 2];
    forall k | 0 <= k < |mid| ensures 1 <= mid[k] && mid[k] != start && mid[k] != end && mid[k] < n {
      assert w[k + 2] != w[0] && w[k + 2] != w[1] && w[k + 2] != w[n - 1];
    }
    var p := seq(|mid|, k requires 0 <= k < |mid| => Unmap(mid[k], start, end));
    assert MapRemap(p, start, end) == mid;
    assert IsTour(p, n - 3) by {
      forall i, j | 0 <= i < j < |p| ensures p[i] != p[j] {
        assert Remap(p[i], start, end) == mid[i] && Remap(p[j], start, end) == mid[j];
      }
    }
    assert Candidate(start, end, p) == w;
    assert p in AllPermutations(n) by {
      TourCoversAll(p, n - 3);
      RangeElements(n - 3);
      assert IsPermutationOf(p, Range(n - 3)) by {
        forall x ensures x in p <==> x in Range(n - 3) {
          if x in p {
            var i :| 0 <= i < |p| && p[i] == x;
            assert Range(n - 3)[x] == x;
          }
        }
      }
      assert Distinct(Range(n - 3));
      PermutationsComplete(Range(n - 3), p);
    }
    CandidateEnumerated(n, start, end, p);
  }

  /**
   * With a symmetric distance every tour costs the same as some candidate:
   * rotate city 0 to the front, and reverse the tour if its second city is
   * above its last.
   */
  lemma SomeCandidateCostsTheSame(cities: seq<Point>, dist: Distance, t: seq<nat>) returns (c: seq<nat>)
    requires Symmetric(dist) && |cities| >= 3 && IsTour(t, |cities|)
    ensures c in Candidates(|cities|) && IsTour(c, |cities|)
    ensures Cost(cities, c, dist) == Cost(cities, t, dist)
  {
    var n := |cities|;
    TourCoversAll(t, n);
    assert 0 in t;
    var i :| 0 <= i < n && t[i] == 0;
    var u := Rotate(t, i);
    RotateIsTour(t, i, n);
    RotateAt(t, i, 0);
    CostRotate(cities, t, i, dist);
    assert u[0] == 0;
    if u[1] < u[n - 1] {
      c := u;
    } else {
      var r := Reverse(u);
      ReverseIsTour(u, n);
      CostReverse(cities, u, dist);
      c := Rotate(r, n - 1);
      RotateIsTour(r, n - 1, n);
      CostRotate(cities, r, n - 1, dist);
      RotateAt(r, n - 1, 0);
      RotateAt(r, n - 1, 1);
      RotateAt(r, n - 1, n - 1);
      assert c[0] == 0 && c[1] == u[n - 1] && c[n - 1] == u[1];
      assert u[1] != u[n - 1];
    }
    CanonicalIsCandidate(n, c);
  }

  /**
   * The brute-force result is an optimal tour: with a symmetric distance no
   * tour of the cities is cheaper, and it is empty only when every tour costs
   * at least f64::MAX.
   */
  lemma BruteForceIsOptimal(cities: seq<Point>, dist: Distance, best: seq<nat>, t: seq<nat>)
    requires Symmetric(dist) && |cities| >= 3
    requires IsFirstMinimum(cities, dist, Candidates(|cities|), best)
    requires IsTour(t, |cities|)
    ensures best != [] ==> IsTour(best, |cities|) && Cost(cities, best, dist) <= Cost(cities, t, dist)
    ensures best == [] ==> Cost(cities, t, dist) >= F64Max
  {
    var c := SomeCandidateCostsTheSame(cities, dist, t);
    var cands := Candidates(|cities|);
    var j :| 0 <= j < |cands| && cands[j] == c;
    if best != [] {
      var k :| 0 <= k < |cands| && FirstMinimumAt(cities, dist, cands, k) && cands[k] == best;
    }
  }
}
