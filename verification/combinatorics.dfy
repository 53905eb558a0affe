/**
 * `factorial`, and the permutations the brute-force search walks through: all
 * orderings of a sequence, in the lexicographic order of the positions they
 * take from it (the order of `Itertools::permutations`).
 */
module Combinatorics {
  import opened Tours

  function Factorial(n: nat): (r: nat)
    ensures r >= 1 && r >= n
  {
    if n <= 1 then 1 else n * Factorial(n - 1)
  }

  function RemoveAt(s: seq<nat>, i: nat): seq<nat>
    requires i < |s|
  {
    s[..i] + s[i + 1..]
  }

  /** Puts `x` in front of every sequence of `ps`. */
  function Prefixed(x: nat, ps: seq<seq<nat>>): (r: seq<seq<nat>>)
    ensures |r| == |ps| && forall k | 0 <= k < |ps| :: r[k] == [x] + ps[k]
  {
    seq(|ps|, k requires 0 <= k < |ps| => [x] + ps[k])
  }

  /**
   * Every ordering of `s`: those that start with s[0] first, then those that
   * start with s[1], and so on, each group ordered the same way on the rest.
   * The empty sequence has exactly one ordering, the empty one.
   */
  function Permutations(s: seq<nat>): seq<seq<nat>>
    decreases |s|, 1
  {
    if s == [] then [[]] else PermutationsFrom(s, 0)
  }

  /** The orderings of `s` that start with s[i], s[i+1], ..., in that order. */
  function PermutationsFrom(s: seq<nat>, i: nat): seq<seq<nat>>
    requires i <= |s|
    decreases |s|, 0, |s| - i
  {
    if i == |s| then []
    else Prefixed(s[i], Permutations(RemoveAt(s, i))) + PermutationsFrom(s, i + 1)
  }

  /** `p` orders exactly the entries of `s`, each once. */
  ghost predicate IsPermutationOf(p: seq<nat>, s: seq<nat>) {
    |p| == |s| && Distinct(p) && forall x :: x in p <==> x in s
  }

  lemma {:induction false} PermutationsCount(s: seq<nat>)
    ensures |Permutations(s)| == Factorial(|s|)
    decreases |s|, 1
  {
    if s != [] {
      PermutationsFromCount(s, 0);
    }
  }

  lemma {:induction false} PermutationsFromCount(s: seq<nat>, i: nat)
    requires 0 < |s| && i <= |s|
    ensures |PermutationsFrom(s, i)| == (|s| - i) * Factorial(|s| - 1)
    decreases |s|, 0, |s| - i
  {
    if i < |s| {
      var rest := RemoveAt(s, i);
      assert |rest| == |s| - 1;
      PermutationsCount(rest);
      PermutationsFromCount(s, i + 1);
      var f, m := Factorial(|s| - 1), |s| - i;
      assert |PermutationsFrom(s, i)| == f + (m - 1) * f;
      MulStep(m, f);
    }
  }

  lemma MulStep(m: nat, f: nat)
    requires m >= 1
    ensures m * f == f + (m - 1) * f
  {
  }

  lemma ConsDistinct(x: nat, q: seq<nat>)
    requires Distinct(q) && x !in q
    ensures Distinct([x] + q)
  {
    var p := [x] + q;
    forall i, j | 0 <= i < j < |p| ensures p[i] != p[j] {
      assert p[j] == q[j - 1];
      if i > 0 { assert p[i] == q[i - 1]; }
    }
  }

  lemma RemoveAtElements(s: seq<nat>, i: nat)
    requires Distinct(s) && i < |s|
    ensures Distinct(RemoveAt(s, i))
    ensures forall x :: x in RemoveAt(s, i) <==> x in s && x != s[i]
  {
    var r := RemoveAt(s, i);
    forall x | x in s && x != s[i] ensures x in r {
      var j :| 0 <= j < |s| && s[j] == x;
      if j < i { assert r[j] == x; } else { assert r[j - 1] == x; }
    }
  }

  /** Every entry of Permutations(s) is an ordering of `s`. */
  lemma {:induction false} PermutationsSound(s: seq<nat>, k: nat)
    requires Distinct(s) && k < |Permutations(s)|
    ensures IsPermutationOf(Permutations(s)[k], s)
    decreases |s|, 1
  {
    if s != [] {
      PermutationsFromSound(s, 0, k);
    }
  }

  lemma {:induction false} PermutationsFromSound(s: seq<nat>, i: nat, k: nat)
    requires Distinct(s) && i <= |s| && k < |PermutationsFrom(s, i)|
    ensures IsPermutationOf(PermutationsFrom(s, i)[k], s)
    decreases |s|, 0, |s| - i
  {
    var rest := RemoveAt(s, i);
    var block := Prefixed(s[i], Permutations(rest));
    if k < |block| {
      RemoveAtElements(s, i);
      PermutationsSound(rest, k);
      var q := Permutations(rest)[k];
      assert PermutationsFrom(s, i)[k] == [s[i]] + q;
      assert s[i] !in q;
      ConsDistinct(s[i], q);
    } else {
      PermutationsFromSound(s, i + 1, k - |block|);
    }
  }

  lemma {:induction false} PermutationsFromContains(s: seq<nat>, i: nat, j: nat, p: seq<nat>)
    requires j <= i < |s|
    requires p in Prefixed(s[i], Permutations(RemoveAt(s, i)))
    ensures p in PermutationsFrom(s, j)
    decreases i - j
  {
    if j < i {
      PermutationsFromContains(s, i, j + 1, p);
    }
  }

  /** Every ordering of `s` occurs in Permutations(s). */
  lemma {:induction false} PermutationsComplete(s: seq<nat>, p: seq<nat>)
    requires Distinct(s) && IsPermutationOf(p, s)
    ensures p in Permutations(s)
    decreases |s|
  {
    if s == [] {
      assert p == [];
    } else {
      assert p[0] in s;
      var i :| 0 <= i < |s| && s[i] == p[0];
      var rest := RemoveAt(s, i);
      var q := p[1..];
      RemoveAtElements(s, i);
      assert IsPermutationOf(q, rest) by {
        forall x ensures x in q <==> x in rest {
          if x in q {
            var j :| 0 <= j < |q| && q[j] == x;
            assert p[j + 1] == x;
          }
          if x in p && x != p[0] {
            var j :| 0 <= j < |p| && p[j] == x;
            assert q[j - 1] == x;
          }
        }
      }
      PermutationsComplete(rest, q);
      var k :| 0 <= k < |Permutations(rest)| && Permutations(rest)[k] == q;
      assert p == [s[i]] + q;
      assert Prefixed(s[i], Permutations(rest))[k] == p;
      PermutationsFromContains(s, i, 0, p);
    }
  }

  /** Lexicographic order on sequences of indices. */
  predicate LexLess(a: seq<nat>, b: seq<nat>) {
    0 < |a| && 0 < |b| && (a[0] < b[0] || (a[0] == b[0] && LexLess(a[1..], b[1..])))
  }

  predicate StrictlyIncreasing(s: seq<nat>) {
    forall i, j | 0 <= i < j < |s| :: s[i] < s[j]
  }

  lemma {:induction false} PermutationsFromHeads(s: seq<nat>, i: nat, k: nat)
    requires StrictlyIncreasing(s) && i < |s| && k < |PermutationsFrom(s, i)|
    ensures |PermutationsFrom(s, i)[k]| > 0 && PermutationsFrom(s, i)[k][0] >= s[i]
    decreases |s| - i
  {
    var block := Prefixed(s[i], Permutations(RemoveAt(s, i)));
    if k >= |block| {
      PermutationsFromHeads(s, i + 1, k - |block|);
    }
  }

  /** For increasing `s` the orderings come out in strictly increasing lexicographic order. */
  lemma {:induction false} PermutationsLexOrdered(s: seq<nat>, a: nat, b: nat)
    requires StrictlyIncreasing(s) && a < b < |Permutations(s)|
    ensures LexLess(Permutations(s)[a], Permutations(s)[b])
    decreases |s|, 1
  {
    if s != [] {
      PermutationsFromLexOrdered(s, 0, a, b);
    }
  }

  lemma {:induction false} PermutationsFromLexOrdered(s: seq<nat>, i: nat, a: nat, b: nat)
    requires StrictlyIncreasing(s) && i <= |s| && a < b < |PermutationsFrom(s, i)|
    ensures LexLess(PermutationsFrom(s, i)[a], PermutationsFrom(s, i)[b])
    decreases |s|, 0, |s| - i
  {
    var rest := RemoveAt(s, i);
    var block := Prefixed(s[i], Permutations(rest));
    var from := PermutationsFrom(s, i);
    if b < |block| {
      assert StrictlyIncreasing(rest) by {
        forall x, y | 0 <= x < y < |rest| ensures rest[x] < rest[y] {
          var x' := if x < i then x else x + 1;
          var y' := if y < i then y else y + 1;
          assert rest[x] == s[x'] && rest[y] == s[y'];
        }
      }
      PermutationsLexOrdered(rest, a, b);
      assert from[a] == [s[i]] + Permutations(rest)[a];
      assert from[b] == [s[i]] + Permutations(rest)[b];
      assert from[a][1..] == Permutations(rest)[a];
      assert from[b][1..] == Permutations(rest)[b];
    } else if a < |block| {
      assert from[a][0] == s[i];
      PermutationsFromHeads(s, i + 1, b - |block|);
      assert from[b] == PermutationsFrom(s, i + 1)[b - |block|];
    } else {
      PermutationsFromLexOrdered(s, i + 1, a - |block|, b - |block|);
    }
  }
}
