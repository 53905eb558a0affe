# TSP tour constructors in Dafny

This project models the tour-construction core of a small Rust travelling
salesman program (`src/main.rs`). Given a list of cities, each constructor
returns a tour: an ordering of the city indices `0..n-1`. The model covers:

- the identity order (`do_random`);
- a stable sort of the indices by their angle key (`do_radial_algorithm`);
- the greedy nearest-neighbour walk (`do_closest_neighbour`);
- triangle insertion, which grows the cycle `[0, 1, 2]` one city at a time (`do_triangle_algorithm`);
- the exhaustive search (`do_brute_force`).

It also models the shared pieces these constructors use:

- the nearest-city scan (`find_closest_point`);
- the closed-tour cost (`dis_in_path`);
- the midpoint (`Point::average`);
- `factorial`.

Coordinates are exact `real`s. The distance between two points is a
parameter `dist: (Point, Point) -> real`. The lemmas that need metric facts
assume them explicitly: symmetry, non-negativity, or distance zero from a
point to itself. The radial key of each city is a parameter `key: nat -> nat`.

The `f64::INFINITY` starting values of the two argmin scans become `None`,
because every real distance is below infinity. The `f64::MAX` starting value
of the brute-force search is the exact constant `BruteForce.F64Max`. A tour
whose cost is not below it is never recorded, so the search can return an
empty vector, as the Rust code does.

Modules, one per file:

- `Geometry` (geometry.dfy): `Point`, the distance type, `Average`.
- `Tours` (tours.dfy): `Range`, `IsTour` (distinct indices below n, n of them), reversal and rotation.
- `TourCost` (tour_cost.dfy): `PathCost`, `Cost`, the loop `DisInPath`.
- `ClosestPoint` (closest_point.dfy): `FindClosestPoint` and the predicate `IsClosest`, which says what it returns.
- `Combinatorics` (combinatorics.dfy): `Factorial`, plus a recursive definition of the permutations that `Itertools::permutations` yields, in the same order.
- `BruteForce` (brute_force.dfy): the index shift of src/main.rs:64, the enumeration of candidate tours, their count, the search, and its optimality.
- `Heuristics` (heuristics.dfy): the four fast constructors.

The Rust loops are Dafny methods with loop invariants. Two inner loops are
separate methods so that each proof stays small:

- `TryOrderings` is the permutation loop of `do_brute_force`.
- `BestInsertion` is the edge scan of `do_triangle_algorithm`.

Each method is proved against a specification function or predicate. For
example, `DoBruteForce` returns the first minimum of `Candidates(n)`, the
exact sequence of tours the three nested loops try.

Two details of `src/main.rs` shape the model:

- `do_brute_force` has no small-n case. For n = 3 it tries the single
  candidate `[0, 1, 2]`, and fewer cities underflow `n_cities - 3`
  (src/main.rs:49, 62). `DoBruteForce` therefore requires three cities.
- `do_triangle_algorithm` starts from `[0, 1, 2]` (src/main.rs:107). It scores
  an edge by the distance from the edge's midpoint to the nearest unvisited
  city (src/main.rs:118).

## Model

| member | source | states |
|---|---|---|
| Geometry.Average | src/main.rs:22-24 | The midpoint lies between the two points in each coordinate and is equally far from both along each axis; the midpoint of a point with itself is that point. |
| Geometry.AverageIsSymmetric | src/main.rs:22-24 | The midpoint does not depend on the order of its two arguments. |
| Combinatorics.Factorial | src/main.rs:9-15 | `factorial(n)` is at least 1 and at least n. |
| Combinatorics.PermutationsCount | src/main.rs:62 | The permutation sequence of s has exactly `factorial(|s|)` entries. |
| Combinatorics.PermutationsSound | src/main.rs:62 | For distinct s, every entry of the permutation sequence has length |s|, has distinct entries and holds exactly the elements of s. |
| Combinatorics.PermutationsComplete | src/main.rs:62 | Every ordering of a distinct s occurs in the permutation sequence. |
| Combinatorics.PermutationsLexOrdered | src/main.rs:62 | For strictly increasing s, the permutations come out in strictly increasing lexicographic order, so there are no repeats. |
| TourCost.DisInPath | src/main.rs:26-32 | The returned total is the closing edge `d(vec[0], vec[last])` plus the sum of `d(vec[i], vec[i+1])` over consecutive entries. It needs a non-empty `vec`. |
| TourCost.CostOfSingleton | src/main.rs:26-32 | If every point is at distance zero from itself, a one-city tour costs 0. |
| TourCost.CostNonNegative | src/main.rs:26-32 | If distances are non-negative, the tour cost is non-negative. |
| TourCost.CostRotate | src/main.rs:26-32 | With a symmetric distance, every cyclic rotation of a tour has the same cost. Symmetry is needed because the closing edge is measured from the first city to the last. |
| TourCost.CostReverse | src/main.rs:26-32 | With a symmetric distance, reversing a tour does not change its cost. |
| ClosestPoint.FindClosestPoint | src/main.rs:33-45 | The result is `None` exactly when every index is excluded. Otherwise it is a non-excluded index no farther from the target than any other non-excluded point, and every lower non-excluded index is strictly farther, so ties go to the lowest index. |
| ClosestPoint.ClosestIsUnique | src/main.rs:33-45 | At most one index satisfies the scan's specification, so the scan's answer is determined by its inputs. |
| BruteForce.Remap | src/main.rs:64 | The mapped index lies between x+1 and x+3 and is never `start` or `end`. |
| BruteForce.Unmap | src/main.rs:64 | Every index in `{1..n-1} \ {start, end}` is the image of some x with x < n-3, so the index shift is onto that set. |
| BruteForce.RemapIncreasing | src/main.rs:64 | The index shift is strictly increasing, hence one-to-one. |
| BruteForce.CandidateIsTour | src/main.rs:62-67 | `[0, start] ++ mapped permutation ++ [end]` is a permutation of `0..n-1`. |
| BruteForce.CandidateCount | src/main.rs:49-62 | (n-1)(n-2) is even, and the number of candidates the loops try equals `tot_ops` = (n-1)(n-2)/2 · factorial(n-3). |
| BruteForce.CandidateEnumerated | src/main.rs:60-67 | Every pair `1 ≤ start < end < n`, combined with every permutation, is among the tried candidates. |
| BruteForce.TryOrderings | src/main.rs:62-75 | After the permutation loop for one (start, end) pair, the tours tried so far are followed by that pair's candidates in permutation order, and `best` is still the first strict minimum of everything tried. |
| BruteForce.DoBruteForce | src/main.rs:47-79 | For n ≥ 3 the result is either empty, when no candidate costs less than f64::MAX, or a candidate whose cost is below f64::MAX and minimal among all candidates, and earlier than every other candidate of that cost (strict `<` at line 71). |
| BruteForce.BruteForceIsOptimal | src/main.rs:47-79 | With a symmetric distance, a non-empty brute-force result is a tour no more expensive than any tour of the cities. An empty result means every tour costs at least f64::MAX. |
| Heuristics.DoRandom | src/main.rs:93-95 | The result is a permutation of `0..n-1` with `r[i] == i`. |
| Heuristics.SortByKey | src/main.rs:87-88 | The result has the same elements as its input and is ordered by key, with ascending index among equal keys, as a stable sort of ascending indices leaves it. |
| Heuristics.DoRadial | src/main.rs:80-92 | The result is a permutation of `0..n-1`, sorted stably by key: the keys never decrease and equal keys keep ascending index order. |
| Heuristics.SortedByKeyUnique | src/main.rs:87-88 | Two orderings of the same indices that are both stably sorted by key are equal, so the radial order is determined by the keys. |
| Heuristics.DoClosestNeighbour | src/main.rs:96-102 | For n ≥ 1 the result starts at 0 and is a permutation of `0..n-1`. Each later entry is the nearest city to its predecessor among those not already visited, with ties going to the lowest index, so the `unwrap` never fails. |
| Heuristics.BestInsertion | src/main.rs:109-124 | The chosen edge position and city satisfy three conditions: the city is the nearest non-member to that edge's midpoint; no edge's nearest city scores less; every earlier edge scores strictly more (strict `<` at line 119). |
| Heuristics.BestInsertionIsUnique | src/main.rs:109-124 | At most one (edge, city) pair satisfies the scan's specification: the first minimal edge and its nearest unvisited city are unique. |
| Heuristics.TriangleStepIsDeterministic | src/main.rs:108-127 | One round of insertion has exactly one outcome, so the triangle tour is determined by the cities and the distance. |
| Heuristics.InsertKeepsTour | src/main.rs:125 | Inserting a new index below n keeps the cycle's entries distinct and below n. |
| Heuristics.DoTriangle | src/main.rs:103-131 | The result is a permutation of `0..n-1`. For n ≤ 3 it is `0..n-1`. Otherwise the recorded rounds start from `[0, 1, 2]`, and each round inserts one new city at its best insertion position while keeping the order of the cities already placed. The last round is the result. |

## Left out

- Floating point: coordinates and distances are exact reals. IEEE rounding, overflow to infinity and NaN in `Point::distance` and in the running sums are not modelled.
- `Point::distance` (src/main.rs:17-21) is replaced by the `dist` parameter. The Euclidean formula with `sqrt` is not modelled. Symmetry, non-negativity and zero self-distance are assumed only by the lemmas that need them.
- Radial key: `atan2`, the `+100.0`, `*100.0` and the cast to `usize` (src/main.rs:88) are replaced by the abstract `key` parameter.
- Centroid: the centroid computation (src/main.rs:81-84) feeds only the key, so it is not modelled.
- Console output: the `println!` at src/main.rs:85 and the commented-out debug prints are not modelled.
- The commented-out confirmation prompt (src/main.rs:50-56) is not modelled.
- The benchmark harness is not modelled: `main`, `AlgorithmStats`, random instance generation and the statistics output (src/main.rs:134-189).
- `Itertools::permutations` is not modelled as library code. Its output is specified by `Combinatorics.Permutations`: all orderings in lexicographic order of positions.
- Combinatorics.Factorial: `usize` overflow of `factorial` and of `tot_ops` for large n is not modelled, because integers are unbounded.
- BruteForce.DoBruteForce: requires at least three cities, because the source underflows `n_cities - 3` (src/main.rs:49, 62) and panics for fewer.
- Heuristics.DoClosestNeighbour: requires at least one city, because `cities.len() - 1` (src/main.rs:98) underflows and panics for an empty list.
- Branch-and-bound search is not modelled: `src/main.rs` contains no such solver.
