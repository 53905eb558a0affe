/** Tours: orderings of the city indices 0..n-1, and the counting facts about them. */
module Tours {

  datatype Option<T> = None | Some(value: T)

  /** The indices 0..n-1 in ascending order. */
  function Range(n: nat): (r: seq<nat>)
    ensures |r| == n
    ensures forall i | 0 <= i < n :: r[i] == i
  {
    seq(n, i => i)
  }

  predicate Distinct(s: seq<nat>) {
    forall i, j | 0 <= i < j < |s| :: s[i] != s[j]
  }

  /** Every entry of `s` indexes one of `n` cities. */
  predicate IndicesBelow(s: seq<nat>, n: nat) {
    forall i | 0 <= i < |s| :: s[i] < n
  }

  /**
   * A tour of `n` cities: a permutation of 0..n-1. Length n, no repeats and no
   * index out of range; TourCoversAll shows that no index is then missing.
   */
  predicate IsTour(t: seq<nat>, n: nat) {
    |t| == n && Distinct(t) && IndicesBelow(t, n)
  }

  function Elements(s: seq<nat>): set<nat> {
    set i | 0 <= i < |s| :: s[i]
  }

  lemma {:induction false} DistinctCard(s: seq<nat>)
    requires Distinct(s)
    ensures |Elements(s)| == |s|
  {
    if |s| > 0 {
      var t := s[..|s| - 1];
      DistinctCard(t);
      assert Elements(s) == Elements(t) + {s[|s| - 1]};
    }
  }

  lemma {:induction false} SubsetCard(a: set<nat>, b: set<nat>)
    requires a <= b
    ensures |a| <= |b|
    ensures a != b ==> |a| < |b|
    decreases |b|
  {
    if b != {} {
      var x :| x in b;
      SubsetCard(a - {x}, b - {x});
      if x in a {
        assert a == (a - {x}) + {x};
      } else {
        assert a - {x} == a;
      }
    }
  }

  /** The index set 0..n-1 has n elements. */
  lemma RangeElements(n: nat)
    ensures |Elements(Range(n))| == n
    ensures forall v: nat :: v in Elements(Range(n)) <==> v < n
  {
    DistinctCard(Range(n));
    forall v: nat | v < n ensures v in Elements(Range(n)) {
      assert Range(n)[v] == v;
    }
  }

  /** Pigeonhole: n distinct indices below n are all of 0..n-1. */
  lemma TourCoversAll(t: seq<nat>, n: nat)
    requires IsTour(t, n)
    ensures forall v: nat | v < n :: v in t
  {
    forall v: nat | v < n ensures v in t {
      if v !in t {
        DistinctCard(t);
        RangeElements(n);
        assert v !in Elements(t);
        SubsetCard(Elements(t), Elements(Range(n)) - {v});
      }
    }
  }

  /** Fewer than n distinct indices below n leave some index unvisited. */
  lemma SomeIndexMissing(s: seq<nat>, n: nat)
    requires Distinct(s) && IndicesBelow(s, n) && |s| < n
    ensures exists v: nat :: v < n && v !in s
  {
    if forall v: nat | v < n :: v in s {
      DistinctCard(s);
      RangeElements(n);
      forall x | x in Elements(Range(n)) ensures x in Elements(s) {
        assert x < n && x in s;
        var i :| 0 <= i < |s| && s[i] == x;
      }
      SubsetCard(Elements(Range(n)), Elements(s));
    }
  }

  function Reverse(s: seq<nat>): (r: seq<nat>)
    ensures |r| == |s|
    ensures forall i | 0 <= i < |s| :: r[i] == s[|s| - 1 - i]
  {
    if s == [] then [] else Reverse(s[1..]) + [s[0]]
  }

  /** The same cyclic order, started at position k. */
  function Rotate(s: seq<nat>, k: nat): seq<nat>
    requires k <= |s|
  {
    s[k..] + s[..k]
  }

  lemma ReverseIsTour(t: seq<nat>, n: nat)
    requires IsTour(t, n)
    ensures IsTour(Reverse(t), n)
  {
  }

  /** Where position i of Rotate(s, k) comes from in s. */
  function RotatedFrom(len: nat, k: nat, i: nat): nat
    requires k <= len && i < len
  {
    if i < len - k then i + k else i + k - len
  }

  lemma RotateAt(s: seq<nat>, k: nat, i: nat)
    requires k <= |s| && i < |s|
    ensures RotatedFrom(|s|, k, i) < |s| && Rotate(s, k)[i] == s[RotatedFrom(|s|, k, i)]
  {
  }

  lemma RotateIsTour(t: seq<nat>, k: nat, n: nat)
    requires IsTour(t, n) && k <= |t|
    ensures IsTour(Rotate(t, k), n)
  {
    var r := Rotate(t, k);
    forall i | 0 <= i < |r| ensures r[i] < n {
      RotateAt(t, k, i);
    }
    forall i, j | 0 <= i < j < |r| ensures r[i] != r[j] {
      RotateAt(t, k, i);
      RotateAt(t, k, j);
    }
  }
}
