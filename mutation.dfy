/** The two mutation operators: the unconditional random swap (`swap`,
    `mutate`) and the greedy relocation of one city (`greedy_mutate`). */
module Mutation {
  import opened Sequences
  import opened Tours

  /** `swap`: exchanges two slots of the list in place, through a temporary. */
  method Swap(list: Tour, i: nat, j: nat)
    requires i < |list.cities| && j < |list.cities|
    modifies list
    ensures list.cities == Swapped(old(list.cities), i, j)
  {
    var temp := list.cities[i];
    list.cities := list.cities[i := list.cities[j]];
    list.cities := list.cities[j := temp];
  }

  /** `mutate`: swaps the cities at two drawn positions, whatever that does
      to the length. The positions are the two `randrange(0, len)` draws. */
  method Mutate(individual: Tour, a: nat, b: nat)
    requires a < |individual.cities| && b < |individual.cities|
    modifies individual
    ensures individual.cities == Swapped(old(individual.cities), a, b)
  {
    Swap(individual, a, b);
  }

  /** The list after `pop(i)` and then `insert(j, s[i])`: the city at `i`
      moved to index `j`, every other city kept in order. */
  function Relocate(s: seq<City>, i: nat, j: nat): (r: seq<City>)
    requires i < |s| && j < |s|
    ensures |r| == |s| && r[j] == s[i]
  {
    Insert(Remove(s, i), j, s[i])
  }

  /** Relocating a city keeps the tour a permutation of the same cities. */
  lemma RelocatePermutation(s: seq<City>, i: nat, j: nat)
    requires i < |s| && j < |s|
    ensures multiset(Relocate(s, i, j)) == multiset(s)
  {
    var rest := Remove(s, i);
    calc {
      multiset(Relocate(s, i, j));
      multiset(rest[..j] + [s[i]] + rest[j..]);
      multiset(rest[..j]) + multiset{s[i]} + multiset(rest[j..]);
      { assert rest == rest[..j] + rest[j..]; }
      multiset(rest) + multiset{s[i]};
      multiset(s[..i]) + multiset(s[i + 1..]) + multiset{s[i]};
      { assert s == s[..i] + [s[i]] + s[i + 1..]; }
      multiset(s);
    }
  }

  /** Popping the moved city from where it was last put and inserting it one
      place further on is the relocation to that next place. */
  lemma RelocateStep(s: seq<City>, i: nat, j: nat)
    requires i < |s| && 1 <= j < |s|
    ensures Insert(Remove(Relocate(s, i, j - 1), j - 1), j, s[i]) == Relocate(s, i, j)
  {
    RemoveInsert(Remove(s, i), j - 1, s[i]);
  }

  /** None of the relocations of the city at `i` to the indices below `j`
      is strictly shorter than `s`, checked one index after the other. */
  ghost predicate NoImprovementBefore(d: Metric, s: seq<City>, i: nat, j: nat)
    requires i < |s| && j <= |s|
  {
    j == 0 || (NoImprovementBefore(d, s, i, j - 1) && Length(d, s) <= Length(d, Relocate(s, i, j - 1)))
  }

  /** The scan's running check means what it says: no relocation to an index
      below `j` is strictly shorter, and conversely. */
  lemma {:induction false} NoImprovementBeforeMeans(d: Metric, s: seq<City>, i: nat, j: nat)
    requires i < |s| && j <= |s|
    ensures NoImprovementBefore(d, s, i, j) <==>
      forall k :: 0 <= k < j ==> Length(d, s) <= Length(d, Relocate(s, i, k))
  {
    if j > 0 {
      NoImprovementBeforeMeans(d, s, i, j - 1);
    }
  }

  /** Where `greedy_mutate`'s scan, started at index `j`, leaves the city
      drawn at `i`: the first index whose relocation is strictly shorter than
      `s`, or the last index when none is (the scan ends there either way). */
  ghost function GreedyIndex(d: Metric, s: seq<City>, i: nat, j: nat): (m: nat)
    requires i < |s| && j < |s|
    ensures j <= m < |s|
    decreases |s| - j
  {
    if j == |s| - 1 || Length(d, Relocate(s, i, j)) < Length(d, s) then j
    else GreedyIndex(d, s, i, j + 1)
  }

  /** The caller's list after `greedy_mutate` with the drawn index `i`. */
  ghost function GreedyInPlace(d: Metric, s: seq<City>, i: nat): (r: seq<City>)
    requires i < |s|
    ensures |r| == |s|
  {
    Relocate(s, i, GreedyIndex(d, s, i, 0))
  }

  /** The scan stops at the first strictly shorter placement. */
  lemma {:induction false} GreedyIndexFirst(d: Metric, s: seq<City>, i: nat, j: nat, m: nat)
    requires i < |s| && j <= m < |s|
    requires NoImprovementBefore(d, s, i, m) && Length(d, Relocate(s, i, m)) < Length(d, s)
    ensures GreedyIndex(d, s, i, j) == m
    decreases m - j
  {
    if j < m {
      NoImprovementBeforeMeans(d, s, i, m);
      GreedyIndexFirst(d, s, i, j + 1, m);
    }
  }

  /** With no strictly shorter placement the scan ends at the last index. */
  lemma {:induction false} GreedyIndexNone(d: Metric, s: seq<City>, i: nat, j: nat)
    requires i < |s| && j < |s|
    requires NoImprovementBefore(d, s, i, |s|)
    ensures GreedyIndex(d, s, i, j) == |s| - 1
    decreases |s| - j
  {
    if j < |s| - 1 {
      NoImprovementBeforeMeans(d, s, i, |s|);
      GreedyIndexNone(d, s, i, j + 1);
    }
  }

  /** The caller's list is left a permutation of the same cities. */
  lemma GreedyInPlacePermutation(d: Metric, s: seq<City>, i: nat)
    requires i < |s|
    ensures multiset(GreedyInPlace(d, s, i)) == multiset(s)
  {
    RelocatePermutation(s, i, GreedyIndex(d, s, i, 0));
  }

  /** A scan started at `j` with nothing shorter below `j` stops at a
      placement with nothing shorter before it, and that placement is either
      strictly shorter or the last index with nothing shorter anywhere. */
  lemma {:induction false} GreedyIndexFrom(d: Metric, s: seq<City>, i: nat, j: nat)
    requires i < |s| && j < |s| && NoImprovementBefore(d, s, i, j)
    ensures NoImprovementBefore(d, s, i, GreedyIndex(d, s, i, j))
    ensures Length(d, Relocate(s, i, GreedyIndex(d, s, i, j))) < Length(d, s) ||
      (GreedyIndex(d, s, i, j) == |s| - 1 && NoImprovementBefore(d, s, i, |s|))
    decreases |s| - j
  {
    if j < |s| - 1 && Length(d, s) <= Length(d, Relocate(s, i, j)) {
      GreedyIndexFrom(d, s, i, j + 1);
    }
  }

  /** Where `greedy_mutate` leaves the city: the first placement strictly
      shorter than `s`, every earlier one being no shorter; or, when there is
      no strictly shorter placement at all, the last index. */
  lemma GreedyInPlaceMeans(d: Metric, s: seq<City>, i: nat)
    requires i < |s|
    ensures exists m :: (0 <= m < |s| && GreedyInPlace(d, s, i) == Relocate(s, i, m) &&
      NoImprovementBefore(d, s, i, m) &&
      (Length(d, Relocate(s, i, m)) < Length(d, s) || (m == |s| - 1 && NoImprovementBefore(d, s, i, |s|))))
  {
    GreedyIndexFrom(d, s, i, 0);
  }

  /** `greedy_mutate`: takes out the city at the drawn index `i` and puts it
      back at index 0, 1, 2, ... in turn, working on the caller's list, and
      stops at the first placement strictly shorter than the original, which
      it returns (the caller's list itself). When no placement is shorter it
      returns a fresh copy of the original, while the caller's list is left
      as the last placement tried: the city moved to the last index. */
  method GreedyMutate(d: Metric, individual: Tour, i: nat) returns (result: Tour)
    requires i < |individual.cities|
    modifies individual
    ensures individual.cities == GreedyInPlace(d, old(individual.cities), i)
    ensures |result.cities| == |old(individual.cities)|
    ensures Length(d, result.cities) <= Length(d, old(individual.cities))
    ensures result == individual ==> Length(d, individual.cities) < Length(d, old(individual.cities))
    ensures result != individual ==>
      fresh(result) && result.cities == old(individual.cities) &&
      NoImprovementBefore(d, old(individual.cities), i, |old(individual.cities)|)
  {
    ghost var orig := individual.cities;
    var preserve := individual.cities;
    var a := individual.cities[i];
    var best := TourLength(d, individual.cities);
    var n := |individual.cities|;
    for j := 0 to n
      invariant j == 0 ==> individual.cities == orig
      invariant j > 0 ==> individual.cities == Relocate(orig, i, j - 1)
      invariant best == Length(d, orig)
      invariant NoImprovementBefore(d, orig, i, j)
    {
      if j == 0 {
        individual.cities := Remove(individual.cities, i);
      } else {
        individual.cities := Remove(individual.cities, j - 1);
      }
      individual.cities := Insert(individual.cities, j, a);
      if j > 0 {
        RelocateStep(orig, i, j);
      }
      assert individual.cities == Relocate(orig, i, j);
      var test := TourLength(d, individual.cities);
      if test < best {
        GreedyIndexFirst(d, orig, i, 0, j);
        return individual;
      }
    }
    GreedyIndexNone(d, orig, i, 0);
    result := new Tour(preserve);
  }

  /** Four cities on a square, visited in order 0, 1, 2, 3: sides have length
      1 and the diagonals length 2 (a stand-in for the square root of 2 that
      keeps the arithmetic exact). */
  function SquareMetric(): (d: Metric)
    ensures IsMetric(d)
  {
    (p: City, q: City) => if p == q then 0.0 else if (p + q) % 2 == 1 then 1.0 else 2.0
  }

  /** The length of a four-city tour, edge by edge. */
  lemma LengthOfFour(d: Metric, t: seq<City>)
    requires |t| == 4
    ensures Length(d, t) == d(t[0], t[1]) + d(t[1], t[2]) + d(t[2], t[3]) + d(t[3], t[0])
  {
    calc {
      PathLength(d, t, 4);
      PathLength(d, t, 3) + d(t[2], t[3]);
      PathLength(d, t, 2) + d(t[1], t[2]) + d(t[2], t[3]);
      d(t[0], t[1]) + d(t[1], t[2]) + d(t[2], t[3]);
    }
  }

  /** The lengths on the square of the tour 0, 1, 2, 3 and of the three
      other placements of its city 1. */
  lemma SquareLengths()
    ensures Length(SquareMetric(), [0, 1, 2, 3]) == 4.0
    ensures Length(SquareMetric(), [1, 0, 2, 3]) == 6.0
    ensures Length(SquareMetric(), [0, 2, 1, 3]) == 6.0
    ensures Length(SquareMetric(), [0, 2, 3, 1]) == 6.0
  {
    var d := SquareMetric();
    assert d(0, 1) == 1.0 && d(1, 2) == 1.0 && d(2, 3) == 1.0 && d(3, 0) == 1.0;
    assert d(1, 0) == 1.0 && d(2, 1) == 1.0 && d(0, 3) == 1.0 && d(3, 1) == 2.0;
    assert d(0, 2) == 2.0 && d(2, 0) == 2.0 && d(1, 3) == 2.0;
    LengthOfFour(d, [0, 1, 2, 3]);
    LengthOfFour(d, [1, 0, 2, 3]);
    LengthOfFour(d, [0, 2, 1, 3]);
    LengthOfFour(d, [0, 2, 3, 1]);
  }

  /** On the square, moving the city at index 1 of the tour 0, 1, 2, 3 to
      any index gives no strictly shorter tour. */
  lemma SquareNoImprovement()
    ensures NoImprovementBefore(SquareMetric(), [0, 1, 2, 3], 1, 4)
    ensures Relocate([0, 1, 2, 3], 1, 3) == [0, 2, 3, 1]
    ensures Length(SquareMetric(), [0, 2, 3, 1]) == 6.0
    ensures Length(SquareMetric(), [0, 1, 2, 3]) == 4.0
  {
    var d, t := SquareMetric(), [0, 1, 2, 3];
    assert Remove(t, 1) == [0, 2, 3];
    assert Relocate(t, 1, 0) == [1, 0, 2, 3];
    assert Relocate(t, 1, 1) == t;
    assert Relocate(t, 1, 2) == [0, 2, 1, 3];
    assert Relocate(t, 1, 3) == [0, 2, 3, 1];
    SquareLengths();
    assert NoImprovementBefore(d, t, 1, 1);
    assert NoImprovementBefore(d, t, 1, 2);
    assert NoImprovementBefore(d, t, 1, 3);
  }

  /** The in-place effect of `greedy_mutate` can lengthen the caller's tour:
      on the optimal square tour with the city at index 1 drawn, no placement
      is strictly shorter, so the caller's list ends as [0, 2, 3, 1], of
      length 6 against 4. */
  lemma GreedyMutateCanLengthen()
    ensures GreedyInPlace(SquareMetric(), [0, 1, 2, 3], 1) == [0, 2, 3, 1]
    ensures Length(SquareMetric(), GreedyInPlace(SquareMetric(), [0, 1, 2, 3], 1))
          > Length(SquareMetric(), [0, 1, 2, 3])
  {
    SquareNoImprovement();
    GreedyIndexNone(SquareMetric(), [0, 1, 2, 3], 1, 0);
  }
}
