/** Cities, the distance between them, and the length of a closed tour
    (the general-purpose functions `distance` and `tourLength`). */
module Tours {

  /** A city is its index in the city list, so two cities are equal exactly
      when they are the same city. */
  type City = nat

  /** `distance`: the distance between two cities. The Euclidean formula over
      floats is not modelled; what the program relies on is IsMetric. */
  type Metric = (City, City) -> real

  /** What the Euclidean distance guarantees: never negative, the same in
      both directions, and zero from a point to itself. */
  ghost predicate IsMetric(d: Metric) {
    (forall p, q :: d(p, q) >= 0.0) &&
    (forall p, q :: d(p, q) == d(q, p)) &&
    (forall p :: d(p, p) == 0.0)
  }

  /** Sum of the edges between consecutive cities among the first `n`,
      `t[0]` to `t[n - 1]`, accumulated from the front as the loop does. */
  ghost function PathLength(d: Metric, t: seq<City>, n: nat): (r: real)
    requires n <= |t|
  {
    if n <= 1 then 0.0 else PathLength(d, t, n - 1) + d(t[n - 2], t[n - 1])
  }

  /** Length of the closed tour: the path plus the edge back to the start. */
  ghost function Length(d: Metric, t: seq<City>): (r: real)
    requires |t| >= 1
  {
    PathLength(d, t, |t|) + d(t[|t| - 1], t[0])
  }

  /** The tour moved `k` places to the left: the same cycle, started elsewhere. */
  function Rotate(t: seq<City>, k: nat): (r: seq<City>)
    requires k <= |t|
    ensures |r| == |t|
    ensures forall i :: 0 <= i < |t| ==> r[i] == if i + k < |t| then t[i + k] else t[i + k - |t|]
  {
    t[k..] + t[..k]
  }

  /** The tour travelled backwards. */
  function Reversed(t: seq<City>): (r: seq<City>)
    ensures |r| == |t|
    ensures forall i :: 0 <= i < |t| ==> r[i] == t[|t| - 1 - i]
  {
    if t == [] then [] else Reversed(t[1..]) + [t[0]]
  }

  /** A Python list of cities that the operators change in place; each
      population slot and each crossover child is one such list. */
  class Tour {
    var cities: seq<City>

    constructor (cities: seq<City>)
      ensures this.cities == cities
    {
      this.cities := cities;
    }
  }

  /** `tourLength`: an accumulator over the edges, then the closing edge.
      An empty list has no last city, so the source fails on it. */
  method TourLength(d: Metric, tour: seq<City>) returns (length: real)
    requires |tour| >= 1
    ensures length == Length(d, tour)
  {
    length := 0.0;
    for i := 1 to |tour|
      invariant length == PathLength(d, tour, i)
    {
      length := length + d(tour[i - 1], tour[i]);
    }
    length := length + d(tour[|tour| - 1], tour[0]);
  }

  /** Two sequences that agree on their first `n` cities have the same path
      over them. */
  lemma {:induction false} PathLengthPrefix(d: Metric, s: seq<City>, t: seq<City>, n: nat)
    requires n <= |s| && n <= |t| && forall k :: 0 <= k < n ==> s[k] == t[k]
    ensures PathLength(d, s, n) == PathLength(d, t, n)
  {
    if n > 1 {
      PathLengthPrefix(d, s, t, n - 1);
    }
  }

  /** Extending a path by one city adds exactly the new edge. */
  lemma PathLengthSnoc(d: Metric, t: seq<City>, x: City)
    requires |t| >= 1
    ensures PathLength(d, t + [x], |t| + 1) == PathLength(d, t, |t|) + d(t[|t| - 1], x)
  {
    PathLengthPrefix(d, t + [x], t, |t|);
  }

  /** The path can equally be summed from the front: first edge, then the rest. */
  lemma {:induction false} PathLengthFront(d: Metric, t: seq<City>, n: nat)
    requires 2 <= n <= |t|
    ensures PathLength(d, t, n) == d(t[0], t[1]) + PathLength(d, t[1..], n - 1)
  {
    if n > 2 {
      PathLengthFront(d, t, n - 1);
      assert t[1..][n - 3] == t[n - 2] && t[1..][n - 2] == t[n - 1];
    }
  }

  /** With a non-negative metric no path has negative length. */
  lemma {:induction false} PathLengthNonNegative(d: Metric, t: seq<City>, n: nat)
    requires IsMetric(d) && n <= |t|
    ensures PathLength(d, t, n) >= 0.0
  {
    if n > 1 {
      PathLengthNonNegative(d, t, n - 1);
    }
  }

  /** A tour is never of negative length. */
  lemma LengthNonNegative(d: Metric, t: seq<City>)
    requires IsMetric(d) && |t| >= 1
    ensures Length(d, t) >= 0.0
  {
    PathLengthNonNegative(d, t, |t|);
  }

  /** A one-city tour has length zero. */
  lemma LengthSingleCity(d: Metric, c: City)
    requires IsMetric(d)
    ensures Length(d, [c]) == 0.0
  {
  }

  /** Starting the tour at its second city does not change its length. */
  lemma RotateOneLength(d: Metric, t: seq<City>)
    requires |t| >= 1
    ensures Length(d, Rotate(t, 1)) == Length(d, t)
  {
    if |t| >= 2 {
      var r := Rotate(t, 1);
      assert r == t[1..] + [t[0]];
      PathLengthSnoc(d, t[1..], t[0]);
      PathLengthFront(d, t, |t|);
    }
  }

  /** Every cyclic rotation of a tour has the same length. */
  lemma {:induction false} RotateLength(d: Metric, t: seq<City>, k: nat)
    requires 1 <= |t| && k <= |t|
    ensures Length(d, Rotate(t, k)) == Length(d, t)
  {
    if k == |t| {
      assert Rotate(t, k) == t;
    } else if k > 0 {
      RotateLength(d, t, k - 1);
      var r := Rotate(t, k - 1);
      RotateOneLength(d, r);
      assert Rotate(r, 1) == Rotate(t, k) by {
        assert r == t[k - 1..] + t[..k - 1];
        assert t[..k] == t[..k - 1] + [t[k - 1]];
      }
    } else {
      assert Rotate(t, 0) == t;
    }
  }

  /** With a symmetric metric a path has the same length backwards. */
  lemma {:induction false} ReversedPathLength(d: Metric, t: seq<City>)
    requires IsMetric(d)
    ensures PathLength(d, Reversed(t), |t|) == PathLength(d, t, |t|)
  {
    if |t| >= 2 {
      var rest := Reversed(t[1..]);
      ReversedPathLength(d, t[1..]);
      PathLengthSnoc(d, rest, t[0]);
      PathLengthFront(d, t, |t|);
    }
  }

  /** With a symmetric metric a tour has the same length travelled backwards. */
  lemma ReversedLength(d: Metric, t: seq<City>)
    requires IsMetric(d) && |t| >= 1
    ensures Length(d, Reversed(t)) == Length(d, t)
  {
    ReversedPathLength(d, t);
  }
}
