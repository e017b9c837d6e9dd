/** `crossover`: a segment cut from one parent is inserted as a block into
    what is left of a tour once the segment's cities are deleted from it, at
    each position in turn, keeping the first strictly shortest candidate, or
    the donor when none is shorter than it. */
module Recombination {
  import opened Sequences
  import opened Tours

  /** The two random draws that place the cut in a tour of `n` cities:
      `len` from `randrange(1, n - 1)`, `start` from `randrange(0, n - len)`. */
  datatype Cut = Cut(len: nat, start: nat)

  /** The ranges `randrange` draws from; an empty range (fewer than three
      cities) makes `randrange` fail, so a cut exists only for `n >= 3`. */
  predicate ValidCut(c: Cut, n: nat) {
    1 <= c.len < n - 1 && c.start < n - c.len
  }

  /** The cities of `donor` in `[start, start + len)`. */
  function Segment(donor: seq<City>, c: Cut): (seg: seq<City>)
    requires ValidCut(c, |donor|)
    ensures |seg| == c.len && 1 <= |seg| <= |donor| - 2
    ensures forall k :: 0 <= k < |seg| ==> seg[k] == donor[c.start + k]
  {
    donor[c.start..c.start + c.len]
  }

  /** The tour tried at insertion position `j`: the segment as one block
      between `remainder[..j]` and `remainder[j..]`. */
  function Candidate(remainder: seq<City>, segment: seq<City>, j: nat): (t: seq<City>)
    requires j <= |remainder|
    ensures |t| == |remainder| + |segment|
  {
    remainder[..j] + segment + remainder[j..]
  }

  /** The outcome of the insertion search over positions `0 .. upTo - 1`,
      starting from `fallback` as the best so far and replacing it only on a
      strictly shorter candidate: the child is no longer than `fallback` nor
      than any candidate, and it is either `fallback` itself or the first
      candidate of its length, which is then strictly shorter than `fallback`. */
  ghost predicate FirstShortest(d: Metric, remainder: seq<City>, segment: seq<City>,
                                fallback: seq<City>, upTo: nat, child: seq<City>)
    requires |segment| >= 1 && |fallback| >= 1 && upTo <= |remainder|
  {
    |child| >= 1 &&
    Length(d, child) <= Length(d, fallback) &&
    (forall k :: 0 <= k < upTo ==> Length(d, child) <= Length(d, Candidate(remainder, segment, k))) &&
    (child == fallback || FirstCandidate(d, remainder, segment, fallback, upTo, child))
  }

  /** `child` is the candidate at some position `m` below `upTo`, strictly
      shorter than `fallback` and than every candidate before it. */
  ghost predicate FirstCandidate(d: Metric, remainder: seq<City>, segment: seq<City>,
                                 fallback: seq<City>, upTo: nat, child: seq<City>)
    requires |segment| >= 1 && |fallback| >= 1 && upTo <= |remainder|
  {
    exists m :: 0 <= m < upTo && child == Candidate(remainder, segment, m) &&
      Length(d, child) < Length(d, fallback) &&
      forall k :: 0 <= k < m ==> Length(d, child) < Length(d, Candidate(remainder, segment, k))
  }

  /** The insertion search over positions `0 .. upTo - 1`, one position at a
      time: the best so far starts as `fallback` and is replaced by a candidate
      only when the candidate is strictly shorter. */
  ghost function BestInsertion(d: Metric, remainder: seq<City>, segment: seq<City>,
                               fallback: seq<City>, upTo: nat): (best: seq<City>)
    requires |segment| >= 1 && |fallback| >= 1 && upTo <= |remainder|
    ensures |best| >= 1
    ensures Length(d, best) <= Length(d, fallback)
  {
    if upTo == 0 then fallback
    else
      var previous := BestInsertion(d, remainder, segment, fallback, upTo - 1);
      var candidate := Candidate(remainder, segment, upTo - 1);
      if Length(d, candidate) < Length(d, previous) then candidate else previous
  }

  /** No candidate below `upTo` is strictly shorter than the search's result. */
  lemma {:induction false} BestInsertionMinimal(d: Metric, remainder: seq<City>, segment: seq<City>,
                                                fallback: seq<City>, upTo: nat)
    requires |segment| >= 1 && |fallback| >= 1 && upTo <= |remainder|
    ensures forall k :: 0 <= k < upTo ==>
      Length(d, BestInsertion(d, remainder, segment, fallback, upTo)) <= Length(d, Candidate(remainder, segment, k))
  {
    if upTo > 0 {
      BestInsertionMinimal(d, remainder, segment, fallback, upTo - 1);
    }
  }

  /** The search keeps the first strictly shortest candidate, or the fallback
      when no candidate beats it. */
  lemma {:induction false} BestInsertionIsFirstShortest(d: Metric, remainder: seq<City>, segment: seq<City>,
                                                         fallback: seq<City>, upTo: nat)
    requires |segment| >= 1 && |fallback| >= 1 && upTo <= |remainder|
    ensures FirstShortest(d, remainder, segment, fallback, upTo,
                          BestInsertion(d, remainder, segment, fallback, upTo))
  {
    BestInsertionMinimal(d, remainder, segment, fallback, upTo);
    if upTo > 0 {
      var best := BestInsertion(d, remainder, segment, fallback, upTo);
      var previous := BestInsertion(d, remainder, segment, fallback, upTo - 1);
      var candidate := Candidate(remainder, segment, upTo - 1);
      BestInsertionIsFirstShortest(d, remainder, segment, fallback, upTo - 1);
      if best != previous {
        assert best == candidate && Length(d, candidate) < Length(d, previous);
        BestInsertionMinimal(d, remainder, segment, fallback, upTo - 1);
        assert FirstCandidate(d, remainder, segment, fallback, upTo, best) by {
          assert 0 <= upTo - 1 < upTo && best == Candidate(remainder, segment, upTo - 1);
        }
      } else if previous != fallback {
        var m :| 0 <= m < upTo - 1 && previous == Candidate(remainder, segment, m) &&
          Length(d, previous) < Length(d, fallback) &&
          forall k :: 0 <= k < m ==> Length(d, previous) < Length(d, Candidate(remainder, segment, k));
        assert FirstCandidate(d, remainder, segment, fallback, upTo, best);
      }
    }
  }

  /** One child of `crossover`, as the code builds it: the segment is cut from
      `donor`, the remainder is `recipient` without the segment's cities, the
      positions tried are `0 .. |remainder| - 1` (the end of the remainder is
      never tried), and both the starting best and the default child are the
      donor itself. */
  ghost function Child(d: Metric, donor: seq<City>, recipient: seq<City>, c: Cut): (child: seq<City>)
    requires ValidCut(c, |donor|)
    ensures |child| >= 1 && Length(d, child) <= Length(d, donor)
  {
    var segment := Segment(donor, c);
    var remainder := Without(recipient, segment);
    BestInsertion(d, remainder, segment, donor, |remainder|)
  }

  /** The inner loop of `crossover`: a copy of the remainder with the
      segment's cities inserted one by one at `j`, `j + 1`, ... */
  method InsertSegment(remainder: seq<City>, segment: seq<City>, j: nat) returns (testChild: seq<City>)
    requires j <= |remainder|
    ensures testChild == Candidate(remainder, segment, j)
  {
    testChild := remainder;
    for i := 0 to |segment|
      invariant testChild == remainder[..j] + segment[..i] + remainder[j..]
    {
      assert testChild[..j + i] == remainder[..j] + segment[..i];
      assert testChild[j + i..] == remainder[j..];
      assert segment[..i + 1] == segment[..i] + [segment[i]];
      testChild := Insert(testChild, j + i, segment[i]);
    }
    assert segment[..|segment|] == segment;
  }

  /** The lines of `crossover` that build one child. The list `insert` loop
      builds each candidate; `tourLength` measures it. */
  method CrossInto(d: Metric, donor: seq<City>, recipient: seq<City>, c: Cut) returns (child: seq<City>)
    requires ValidCut(c, |donor|)
    ensures child == Child(d, donor, recipient, c)
  {
    var segment := Segment(donor, c);
    var remainder := Without(recipient, segment);
    var bestLength := TourLength(d, donor);
    var useChild := donor;
    for j := 0 to |remainder|
      invariant useChild == BestInsertion(d, remainder, segment, donor, j)
      invariant bestLength == Length(d, useChild)
    {
      var testChild := InsertSegment(remainder, segment, j);
      var testLength := TourLength(d, testChild);
      if testLength < bestLength {
        useChild := testChild;
        bestLength := testLength;
      }
    }
    child := useChild;
  }

  /** When both parents are permutations of the same distinct cities, every
      candidate is too: the filter removes exactly the segment's cities, and
      the insertion puts them back. */
  lemma CandidatePermutation(donor: seq<City>, recipient: seq<City>, c: Cut, j: nat)
    requires ValidCut(c, |donor|) && Distinct(donor) && multiset(recipient) == multiset(donor)
    requires j <= |Without(recipient, Segment(donor, c))|
    ensures |Without(recipient, Segment(donor, c))| == |donor| - c.len
    ensures multiset(Candidate(Without(recipient, Segment(donor, c)), Segment(donor, c), j)) == multiset(donor)
  {
    var segment := Segment(donor, c);
    var remainder := Without(recipient, segment);
    SliceDistinct(donor, c.start, c.start + c.len);
    forall x | x in segment ensures multiset(recipient)[x] == 1 {
      DistinctCount(donor, x);
    }
    WithoutMultiset(recipient, segment);
    assert remainder == remainder[..j] + remainder[j..];
  }

  /** The remainder has `n - len >= 2` cities, so at least one candidate is
      tried. */
  lemma RemainderSize(donor: seq<City>, recipient: seq<City>, c: Cut)
    requires ValidCut(c, |donor|) && Distinct(donor) && multiset(recipient) == multiset(donor)
    ensures |Without(recipient, Segment(donor, c))| == |donor| - c.len >= 2
  {
    CandidatePermutation(donor, recipient, c, 0);
  }

  /** When both parents are permutations of the same distinct cities, a
      child is too, and it is either the donor or the first shortest
      candidate. */
  lemma ChildProperties(d: Metric, donor: seq<City>, recipient: seq<City>, c: Cut)
    requires ValidCut(c, |donor|) && Distinct(donor) && multiset(recipient) == multiset(donor)
    ensures multiset(Child(d, donor, recipient, c)) == multiset(donor)
    ensures FirstShortest(d, Without(recipient, Segment(donor, c)), Segment(donor, c), donor,
                          |Without(recipient, Segment(donor, c))|, Child(d, donor, recipient, c))
  {
    var child := Child(d, donor, recipient, c);
    var segment := Segment(donor, c);
    var remainder := Without(recipient, segment);
    BestInsertionIsFirstShortest(d, remainder, segment, donor, |remainder|);
    if child != donor {
      var m :| 0 <= m < |remainder| && child == Candidate(remainder, segment, m) &&
        Length(d, child) < Length(d, donor) &&
        forall k :: 0 <= k < m ==> Length(d, child) < Length(d, Candidate(remainder, segment, k));
      CandidatePermutation(donor, recipient, c, m);
    }
  }

  /** A child has as many cities as its donor. */
  lemma ChildLength(d: Metric, donor: seq<City>, recipient: seq<City>, c: Cut)
    requires ValidCut(c, |donor|) && Distinct(donor) && multiset(recipient) == multiset(donor)
    ensures |Child(d, donor, recipient, c)| == |donor|
  {
    ChildProperties(d, donor, recipient, c);
    assert |multiset(Child(d, donor, recipient, c))| == |multiset(donor)|;
  }

  /** `crossover`: child1 takes a segment of `mom` into what is left of `pop`,
      starting from `mom`; child2 takes a segment of `pop` into what is left
      of `pop` itself, starting from `pop`. Both children are new lists. */
  method Crossover(d: Metric, mom: Tour, pop: Tour, momCut: Cut, popCut: Cut) returns (child1: Tour, child2: Tour)
    requires ValidCut(momCut, |mom.cities|) && ValidCut(popCut, |pop.cities|)
    ensures fresh(child1) && fresh(child2) && child1 != child2
    ensures child1.cities == Child(d, mom.cities, pop.cities, momCut)
    ensures child2.cities == Child(d, pop.cities, pop.cities, popCut)
  {
    var use1 := CrossInto(d, mom.cities, pop.cities, momCut);
    child1 := new Tour(use1);
    var use2 := CrossInto(d, pop.cities, pop.cities, popCut);
    child2 := new Tour(use2);
  }
}
