/** The nearest not-yet-excluded city to a target point (`find_closest_point`). */
module ClosestPoint {
  import opened Geometry
  import opened Tours

  /**
   * `k` is the city the scan picks for `target`: it is not excluded, no other
   * non-excluded city is strictly nearer, and every non-excluded city with a
   * lower index is strictly farther (ties go to the lowest index).
   */
  predicate IsClosest(points: seq<Point>, target: Point, exclude: seq<nat>, dist: Distance, k: nat) {
    && k < |points|
    && k !in exclude
    && (forall j | 0 <= j < |points| && j !in exclude :: dist(points[k], target) <= dist(points[j], target))
    && (forall j | 0 <= j < k && j !in exclude :: dist(points[j], target) > dist(points[k], target))
  }

  /** The scan's choice is determined by its inputs. */
  lemma ClosestIsUnique(points: seq<Point>, target: Point, exclude: seq<nat>, dist: Distance, a: nat, b: nat)
    requires IsClosest(points, target, exclude, dist, a)
    requires IsClosest(points, target, exclude, dist, b)
    ensures a == b
  {
  }

  /**
   * `find_closest_point`. The running minimum starts at f64::INFINITY, which
   * `minDis == None` stands for: every finite distance is below it.
   */
  method FindClosestPoint(points: seq<Point>, target: Point, exclude: seq<nat>, dist: Distance)
    returns (minIndex: Option<nat>)
    ensures minIndex.None? <==> forall j | 0 <= j < |points| :: j in exclude
    ensures minIndex.Some? ==> IsClosest(points, target, exclude, dist, minIndex.value)
  {
    minIndex := None;
    var minDis: Option<real> := None;
    for index := 0 to |points|
      invariant minIndex.None? <==> forall j | 0 <= j < index :: j in exclude
      invariant minIndex.None? ==> minDis.None?
      invariant minIndex.Some? ==>
        && minIndex.value < index
        && minIndex.value !in exclude
        && minDis == Some(dist(points[minIndex.value], target))
        && (forall j | 0 <= j < index && j !in exclude :: dist(points[minIndex.value], target) <= dist(points[j], target))
        && (forall j | 0 <= j < minIndex.value && j !in exclude :: dist(points[j], target) > dist(points[minIndex.value], target))
    {
      var dis := dist(points[index], target);
      if (minDis.None? || dis < minDis.value) && index !in exclude {
        minDis := Some(dis);
        minIndex := Some(index);
      }
    }
  }
}
