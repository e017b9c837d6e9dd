/** The population and one generation of the genetic algorithm
    (`makePopulation`, `newGeneration` and the sort by tour length). */
module Generation {
  import opened Sequences
  import opened Tours
  import opened Mutation
  import opened Recombination

  /** Number of generations to evolve. */
  const GENERATIONS: nat := 10000
  /** Size of the population. */
  const SIZE: nat := 350
  /** Probability that the random swap mutation happens in a generation. */
  const MUTATION_RATE: real := 0.20

  /** The draws `random.shuffle` makes on a list of `n` cities: for the index
      `i` counting down from `n - 1` to 1 it draws an index `j <= i` and
      swaps the two; `draws[i - 1]` is the draw for index `i`. */
  predicate ShuffleDraws(draws: seq<nat>, n: nat) {
    |draws| == (if n == 0 then 0 else n - 1) &&
    forall k :: 0 <= k < |draws| ==> draws[k] <= k + 1
  }

  /** The list once the swaps for the indices `i`, `i - 1`, ..., 1 are done. */
  function ShuffleSteps(s: seq<City>, draws: seq<nat>, i: nat): (r: seq<City>)
    requires i <= |draws| && (i == 0 || i < |s|)
    requires forall k :: 0 <= k < i ==> draws[k] <= k + 1
    ensures |r| == |s|
    decreases i
  {
    if i == 0 then s else ShuffleSteps(Swapped(s, i, draws[i - 1]), draws, i - 1)
  }

  /** Shuffling keeps the same cities. */
  lemma {:induction false} ShuffleStepsPermutation(s: seq<City>, draws: seq<nat>, i: nat)
    requires i <= |draws| && (i == 0 || i < |s|)
    requires forall k :: 0 <= k < i ==> draws[k] <= k + 1
    ensures multiset(ShuffleSteps(s, draws, i)) == multiset(s)
    decreases i
  {
    if i > 0 {
      SwappedPermutation(s, i, draws[i - 1]);
      ShuffleStepsPermutation(Swapped(s, i, draws[i - 1]), draws, i - 1);
    }
  }

  /** The list `random.shuffle` makes of `s` with the given draws. */
  function Shuffled(s: seq<City>, draws: seq<nat>): (r: seq<City>)
    requires ShuffleDraws(draws, |s|)
    ensures multiset(r) == multiset(s)
  {
    ShuffleStepsPermutation(s, draws, |draws|);
    ShuffleSteps(s, draws, |draws|)
  }

  /** `random.shuffle` on one list, in place. */
  method Shuffle(list: Tour, draws: seq<nat>)
    requires ShuffleDraws(draws, |list.cities|)
    modifies list
    ensures list.cities == Shuffled(old(list.cities), draws)
  {
    var i: nat := |draws|;
    while i > 0
      invariant i <= |draws| && |list.cities| == |old(list.cities)|
      invariant ShuffleSteps(list.cities, draws, i) == ShuffleSteps(old(list.cities), draws, |draws|)
    {
      Swap(list, i, draws[i - 1]);
      i := i - 1;
    }
  }

  /** `int(SIZE * MATING_FRACTION)` for the fraction `mating / 1000`: the
      length of the population prefix the mates are chosen from. */
  function MatingPrefix(mating: nat): (k: nat)
    requires 50 <= mating < 950
    ensures 17 <= k <= 332 && k <= SIZE
    ensures k * 1000 <= SIZE * mating < (k + 1) * 1000
  {
    SIZE * mating / 1000
  }

  /** The random draws of one call of `newGeneration`, in the order the code
      makes them: the mating fraction (`randrange(50, 950)`), the two indices
      `random.choice` picks in the mating prefix, the two cuts `crossover`
      draws, the index each `greedy_mutate` draws, `random.random()`, and the
      slot and the two positions of the random swap. */
  datatype Draws = Draws(mating: nat, mate1: nat, mate2: nat, momCut: Cut, popCut: Cut,
                         greedy1: nat, greedy2: nat, chance: real,
                         victim: nat, swapA: nat, swapB: nat)

  /** The ranges the draws come from, for tours of `n` cities. */
  predicate ValidDraws(g: Draws, n: nat) {
    50 <= g.mating < 950 && g.mate1 < MatingPrefix(g.mating) && g.mate2 < MatingPrefix(g.mating) &&
    ValidCut(g.momCut, n) && ValidCut(g.popCut, n) && g.greedy1 < n && g.greedy2 < n &&
    0.0 <= g.chance < 1.0 && 1 <= g.victim < SIZE && g.swapA < n && g.swapB < n
  }

  /** Every tour visits exactly the given cities. */
  ghost predicate Permutations(ts: seq<seq<City>>, cities: seq<City>) {
    forall k :: 0 <= k < |ts| ==> |ts[k]| == |cities| && multiset(ts[k]) == multiset(cities)
  }

  /** Tours sorted by length, shortest first, as `sort(key = tourLength)`. */
  ghost predicate SortedByLength(d: Metric, ts: seq<seq<City>>) {
    (forall k :: 0 <= k < |ts| ==> |ts[k]| >= 1) &&
    forall a, b :: 0 <= a < b < |ts| ==> Length(d, ts[a]) <= Length(d, ts[b])
  }

  /** The generation's preconditions on the population and the draws. */
  ghost predicate Ready(cities: seq<City>, ts: seq<seq<City>>, g: Draws) {
    Distinct(cities) && |cities| >= 3 && |ts| == SIZE && Permutations(ts, cities) && ValidDraws(g, |cities|)
  }

  /** What `crossover` and the two `greedy_mutate` calls need of the two
      mates and the draws: the mates are permutations of the same distinct
      cities, long enough for the cuts and the greedy indices. */
  ghost predicate CanBreed(mom: seq<City>, pop: seq<City>, g: Draws) {
    Distinct(mom) && multiset(pop) == multiset(mom) &&
    ValidCut(g.momCut, |mom|) && ValidCut(g.popCut, |pop|) && g.greedy1 < |mom| && g.greedy2 < |pop|
  }

  /** Any two tours of a ready population can be mated with the draws. */
  lemma MatesReady(cities: seq<City>, ts: seq<seq<City>>, g: Draws)
    requires Ready(cities, ts, g)
    ensures g.mate1 < |ts| && g.mate2 < |ts| && CanBreed(ts[g.mate1], ts[g.mate2], g)
  {
    PermutationDistinct(cities, ts[g.mate1]);
  }

  /** The two children of a generation: crossover of the two mates, then the
      in-place effect of `greedy_mutate` on each (its result is discarded). */
  ghost function Offspring(d: Metric, mom: seq<City>, pop: seq<City>, g: Draws): (children: (seq<City>, seq<City>))
    requires CanBreed(mom, pop, g)
    ensures |children.0| == |mom| && |children.1| == |pop|
  {
    PermutationDistinct(mom, pop);
    ChildLength(d, mom, pop, g.momCut);
    ChildLength(d, pop, pop, g.popCut);
    (GreedyInPlace(d, Child(d, mom, pop, g.momCut), g.greedy1),
     GreedyInPlace(d, Child(d, pop, pop, g.popCut), g.greedy2))
  }

  /** Both children visit exactly the cities of the mates. */
  lemma OffspringPermutation(d: Metric, mom: seq<City>, pop: seq<City>, g: Draws)
    requires CanBreed(mom, pop, g)
    ensures multiset(Offspring(d, mom, pop, g).0) == multiset(mom)
    ensures multiset(Offspring(d, mom, pop, g).1) == multiset(mom)
  {
    PermutationDistinct(mom, pop);
    var child1 := Child(d, mom, pop, g.momCut);
    var child2 := Child(d, pop, pop, g.popCut);
    ChildProperties(d, mom, pop, g.momCut);
    ChildProperties(d, pop, pop, g.popCut);
    GreedyInPlacePermutation(d, child1, g.greedy1);
    GreedyInPlacePermutation(d, child2, g.greedy2);
  }

  /** The children of the two mates of a ready population. */
  ghost function Children(d: Metric, cities: seq<City>, ts: seq<seq<City>>, g: Draws): (children: (seq<City>, seq<City>))
    requires Ready(cities, ts, g)
    ensures |children.0| == |cities| && |children.1| == |cities|
  {
    MatesReady(cities, ts, g);
    Offspring(d, ts[g.mate1], ts[g.mate2], g)
  }

  /** The children of a ready population visit exactly its cities. */
  lemma ChildrenPermutation(d: Metric, cities: seq<City>, ts: seq<seq<City>>, g: Draws)
    requires Ready(cities, ts, g)
    ensures multiset(Children(d, cities, ts, g).0) == multiset(cities)
    ensures multiset(Children(d, cities, ts, g).1) == multiset(cities)
  {
    MatesReady(cities, ts, g);
    OffspringPermutation(d, ts[g.mate1], ts[g.mate2], g);
  }

  /** Slot `k` after the replacement test: the child takes the slot only when
      it is strictly shorter than the tour there. */
  ghost function Replaced(d: Metric, ts: seq<seq<City>>, k: nat, child: seq<City>): (r: seq<seq<City>>)
    requires k < |ts| && |ts[k]| >= 1 && |child| >= 1
    ensures |r| == |ts| && forall m :: 0 <= m < |ts| && m != k ==> r[m] == ts[m]
    ensures r[k] == ts[k] || (r[k] == child && Length(d, child) < Length(d, ts[k]))
    ensures Length(d, child) < Length(d, ts[k]) ==> r[k] == child
  {
    if Length(d, child) < Length(d, ts[k]) then ts[k := child] else ts
  }

  /** The random swap at the end of `newGeneration`: with probability
      `MUTATION_RATE` the drawn slot has the two drawn positions exchanged. */
  function AfterMutation(ts: seq<seq<City>>, g: Draws): (r: seq<seq<City>>)
    requires g.victim < |ts| && g.swapA < |ts[g.victim]| && g.swapB < |ts[g.victim]|
    ensures |r| == |ts|
  {
    if g.chance < MUTATION_RATE then ts[g.victim := Swapped(ts[g.victim], g.swapA, g.swapB)] else ts
  }

  /** The population after a generation whose two children are `c1` and
      `c2`: the replacement tests on the last two slots, then the random swap. */
  ghost function GenerationWith(d: Metric, cities: seq<City>, ts: seq<seq<City>>, c1: seq<City>, c2: seq<City>,
                                g: Draws): (r: seq<seq<City>>)
    requires Ready(cities, ts, g) && |c1| == |cities| && |c2| == |cities|
    ensures |r| == SIZE
  {
    AfterMutation(Replaced(d, Replaced(d, ts, SIZE - 2, c1), SIZE - 1, c2), g)
  }

  /** The population after one call of `newGeneration`. */
  ghost function NextGeneration(d: Metric, cities: seq<City>, ts: seq<seq<City>>, g: Draws): (r: seq<seq<City>>)
    requires Ready(cities, ts, g)
    ensures |r| == SIZE
  {
    var children := Children(d, cities, ts, g);
    GenerationWith(d, cities, ts, children.0, children.1, g)
  }

  /** A generation is the replacement and mutation of its own children. */
  lemma NextGenerationWith(d: Metric, cities: seq<City>, ts: seq<seq<City>>, g: Draws, c1: seq<City>, c2: seq<City>)
    requires Ready(cities, ts, g) && (c1, c2) == Children(d, cities, ts, g)
    ensures NextGeneration(d, cities, ts, g) == GenerationWith(d, cities, ts, c1, c2, g)
  {
  }

  /** After a sort by length the first tour is a shortest one: no tour of
      the population before the sort is shorter. */
  lemma SortedFirstIsShortest(d: Metric, ts: seq<seq<City>>, us: seq<seq<City>>)
    requires SortedByLength(d, us) && |us| >= 1 && multiset(us) == multiset(ts)
    ensures forall k :: 0 <= k < |ts| ==> |ts[k]| >= 1 && Length(d, us[0]) <= Length(d, ts[k])
  {
    forall k | 0 <= k < |ts| ensures |ts[k]| >= 1 && Length(d, us[0]) <= Length(d, ts[k]) {
      assert ts[k] in multiset(us);
      var p :| 0 <= p < |us| && us[p] == ts[k];
    }
  }

  /** A replacement by a permutation of the cities keeps every tour one. */
  lemma ReplacedPermutations(d: Metric, cities: seq<City>, ts: seq<seq<City>>, k: nat, child: seq<City>)
    requires |cities| >= 1 && k < |ts| && Permutations(ts, cities)
    requires |child| == |cities| && multiset(child) == multiset(cities)
    ensures Permutations(Replaced(d, ts, k, child), cities)
  {
    var r := Replaced(d, ts, k, child);
    forall m | 0 <= m < |r| ensures |r[m]| == |cities| && multiset(r[m]) == multiset(cities) {
      if m != k {
        assert r[m] == ts[m];
      }
    }
  }

  /** The random swap keeps every tour a permutation of the cities. */
  lemma AfterMutationPermutations(cities: seq<City>, ts: seq<seq<City>>, g: Draws)
    requires g.victim < |ts| && g.swapA < |cities| && g.swapB < |cities| && Permutations(ts, cities)
    ensures Permutations(AfterMutation(ts, g), cities)
  {
    if g.chance < MUTATION_RATE {
      SwappedPermutation(ts[g.victim], g.swapA, g.swapB);
      var r := AfterMutation(ts, g);
      forall k | 0 <= k < |r| ensures |r[k]| == |cities| && multiset(r[k]) == multiset(cities) {
        if k != g.victim {
          assert r[k] == ts[k];
        }
      }
    }
  }

  /** Children that are permutations of the cities keep every tour one. */
  lemma GenerationWithPermutations(d: Metric, cities: seq<City>, ts: seq<seq<City>>, c1: seq<City>, c2: seq<City>,
                                   g: Draws)
    requires Ready(cities, ts, g) && |c1| == |cities| && |c2| == |cities|
    requires multiset(c1) == multiset(cities) && multiset(c2) == multiset(cities)
    ensures Permutations(GenerationWith(d, cities, ts, c1, c2, g), cities)
  {
    var once := Replaced(d, ts, SIZE - 2, c1);
    ReplacedPermutations(d, cities, ts, SIZE - 2, c1);
    ReplacedPermutations(d, cities, once, SIZE - 1, c2);
    AfterMutationPermutations(cities, Replaced(d, once, SIZE - 1, c2), g);
  }

  /** A generation keeps every tour a permutation of the cities. */
  lemma NextGenerationPermutations(d: Metric, cities: seq<City>, ts: seq<seq<City>>, g: Draws)
    requires Ready(cities, ts, g)
    ensures Permutations(NextGeneration(d, cities, ts, g), cities)
  {
    ChildrenPermutation(d, cities, ts, g);
    var children := Children(d, cities, ts, g);
    GenerationWithPermutations(d, cities, ts, children.0, children.1, g);
  }

  /** What a generation does to each slot: the first slot is never touched;
      the last two take their child only when it is strictly shorter; apart
      from those two, only the drawn slot can change, and only by the swap of
      the two drawn positions, with probability `MUTATION_RATE`. */
  lemma GenerationWithSlots(d: Metric, cities: seq<City>, ts: seq<seq<City>>, c1: seq<City>, c2: seq<City>,
                            g: Draws)
    requires Ready(cities, ts, g) && |c1| == |cities| && |c2| == |cities|
    ensures GenerationWith(d, cities, ts, c1, c2, g)[0] == ts[0]
    ensures forall k :: 1 <= k < SIZE - 2 && (k != g.victim || g.chance >= MUTATION_RATE) ==>
      GenerationWith(d, cities, ts, c1, c2, g)[k] == ts[k]
    ensures g.chance < MUTATION_RATE ==>
      GenerationWith(d, cities, ts, c1, c2, g)[g.victim] ==
      Swapped(Replaced(d, Replaced(d, ts, SIZE - 2, c1), SIZE - 1, c2)[g.victim], g.swapA, g.swapB)
    ensures forall k :: SIZE - 2 <= k < SIZE && (k != g.victim || g.chance >= MUTATION_RATE) ==>
      var r := GenerationWith(d, cities, ts, c1, c2, g);
      var child := if k == SIZE - 2 then c1 else c2;
      (r[k] == ts[k] && Length(d, ts[k]) <= Length(d, child)) ||
      (r[k] == child && Length(d, child) < Length(d, ts[k]))
  {
  }

  /** A generation never makes a slot longer, except the one the random swap
      mutates. */
  lemma NextGenerationNoLonger(d: Metric, cities: seq<City>, ts: seq<seq<City>>, g: Draws)
    requires Ready(cities, ts, g)
    ensures NextGeneration(d, cities, ts, g)[0] == ts[0]
    ensures forall k :: 0 <= k < SIZE && (k != g.victim || g.chance >= MUTATION_RATE) ==>
      Length(d, NextGeneration(d, cities, ts, g)[k]) <= Length(d, ts[k])
  {
    var children := Children(d, cities, ts, g);
    GenerationWithSlots(d, cities, ts, children.0, children.1, g);
  }

  /** A population list with its sort key `tourLength` and the cities it
      holds when the key is taken. */
  datatype Keyed = Keyed(list: Tour, cities: seq<City>, key: real)

  function ListOf(e: Keyed): (l: Tour) { e.list }
  function CitiesOf(e: Keyed): (c: seq<City>) { e.cities }

  /** The sort keys of `sort(key = tourLength)`: `tourLength` of every list,
      computed once each. */
  method Keys(d: Metric, lists: seq<Tour>) returns (keyed: seq<Keyed>)
    requires forall m :: 0 <= m < |lists| ==> |lists[m].cities| >= 1
    ensures |keyed| == |lists|
    ensures forall m :: 0 <= m < |lists| ==>
      keyed[m] == Keyed(lists[m], lists[m].cities, Length(d, lists[m].cities))
  {
    keyed := [];
    for k := 0 to |lists|
      invariant |keyed| == k
      invariant forall m :: 0 <= m < k ==> keyed[m] == Keyed(lists[m], lists[m].cities, Length(d, lists[m].cities))
    {
      var key := TourLength(d, lists[k].cities);
      keyed := keyed + [Keyed(lists[k], lists[k].cities, key)];
    }
  }

  /** Each entry of a rearrangement of the keys of `lists` is one of those
      lists, with the cities it holds and its length as key. */
  lemma KeyedEntries(d: Metric, cities: seq<City>, lists: seq<Tour>, keyed: seq<Keyed>, sorted: seq<Keyed>)
    requires |cities| >= 1 && |keyed| == |lists| && multiset(sorted) == multiset(keyed)
    requires forall m :: 0 <= m < |lists| ==>
      |lists[m].cities| == |cities| && multiset(lists[m].cities) == multiset(cities)
    requires forall m :: 0 <= m < |lists| ==>
      keyed[m] == Keyed(lists[m], lists[m].cities, Length(d, lists[m].cities))
    ensures forall m :: 0 <= m < |sorted| ==>
      sorted[m].cities == sorted[m].list.cities && |sorted[m].cities| == |cities| &&
      multiset(sorted[m].cities) == multiset(cities) && sorted[m].key == Length(d, sorted[m].cities)
  {
    forall m | 0 <= m < |sorted|
      ensures sorted[m].cities == sorted[m].list.cities && |sorted[m].cities| == |cities|
      ensures multiset(sorted[m].cities) == multiset(cities) && sorted[m].key == Length(d, sorted[m].cities)
    {
      assert sorted[m] in multiset(keyed);
      var p :| 0 <= p < |keyed| && keyed[p] == sorted[m];
    }
  }

  /** While the entry that started at `i` sinks, now at `j`: the other
      entries up to `i` are in key order and none after `j` has a smaller key. */
  predicate Sinking(r: seq<Keyed>, i: nat, j: nat)
    requires j <= i < |r|
  {
    (forall a, b :: 0 <= a < b <= i && a != j && b != j ==> r[a].key <= r[b].key) &&
    (forall b :: j < b <= i ==> r[j].key <= r[b].key)
  }

  /** Swapping the sinking entry with a larger key before it lets it sink one
      place further. */
  lemma SinkingStep(r: seq<Keyed>, i: nat, j: nat)
    requires 0 < j <= i < |r| && Sinking(r, i, j) && r[j - 1].key > r[j].key
    ensures Sinking(r[j - 1 := r[j]][j := r[j - 1]], i, j - 1)
    ensures multiset(r[j - 1 := r[j]][j := r[j - 1]]) == multiset(r)
  {
  }

  /** One insertion step: the entry at `i` moves down past the larger keys
      before it, so that the first `i + 1` entries are in key order. */
  method SinkEntry(entries: seq<Keyed>, i: nat) returns (r: seq<Keyed>)
    requires i < |entries|
    requires forall a, b :: 0 <= a < b < i ==> entries[a].key <= entries[b].key
    ensures |r| == |entries| && multiset(r) == multiset(entries)
    ensures forall a, b :: 0 <= a < b <= i ==> r[a].key <= r[b].key
  {
    r := entries;
    var j := i;
    while j > 0 && r[j - 1].key > r[j].key
      invariant 0 <= j <= i
      invariant |r| == |entries| && multiset(r) == multiset(entries)
      invariant Sinking(r, i, j)
    {
      SinkingStep(r, i, j);
      r := r[j - 1 := r[j]][j := r[j - 1]];
      j := j - 1;
    }
  }

  /** Orders the entries by key, smallest first, by insertion. */
  method SortByKey(entries: seq<Keyed>) returns (sorted: seq<Keyed>)
    ensures |sorted| == |entries| && multiset(sorted) == multiset(entries)
    ensures forall a, b :: 0 <= a < b < |sorted| ==> sorted[a].key <= sorted[b].key
  {
    sorted := entries;
    for i := 0 to |sorted|
      invariant |sorted| == |entries| && multiset(sorted) == multiset(entries)
      invariant forall a, b :: 0 <= a < b < i ==> sorted[a].key <= sorted[b].key
    {
      sorted := SinkEntry(sorted, i);
    }
  }

  /** The population: a list of `SIZE` tour lists, each a permutation of the
      cities, no two of them the same list object. `tours` is what the lists
      hold, slot by slot. */
  class Population {
    ghost const cities: seq<City>
    var slots: seq<Tour>
    ghost var tours: seq<seq<City>>

    ghost predicate Valid()
      reads this, slots
    {
      |slots| == SIZE && |tours| == SIZE && Distinct(slots) && Distinct(cities) &&
      (forall k :: 0 <= k < SIZE ==> tours[k] == slots[k].cities) && Permutations(tours, cities)
    }

    /** `makePopulation`: `SIZE` copies of the city list, each shuffled in
        place with its own draws. */
    constructor Make(cities: seq<City>, shuffles: seq<seq<nat>>)
      requires Distinct(cities)
      requires |shuffles| == SIZE && forall k :: 0 <= k < SIZE ==> ShuffleDraws(shuffles[k], |cities|)
      ensures this.cities == cities && Valid()
      ensures forall k :: 0 <= k < SIZE ==> fresh(slots[k]) && tours[k] == Shuffled(cities, shuffles[k])
    {
      var population: seq<Tour> := [];
      ghost var shuffled: seq<seq<City>> := [];
      for i := 0 to SIZE
        invariant |population| == i && |shuffled| == i && Distinct(population)
        invariant forall k :: 0 <= k < i ==> fresh(population[k]) && population[k].cities == shuffled[k]
        invariant forall k :: 0 <= k < i ==> shuffled[k] == Shuffled(cities, shuffles[k])
      {
        var list := new Tour(cities);
        Shuffle(list, shuffles[i]);
        population := population + [list];
        shuffled := shuffled + [list.cities];
      }
      this.cities := cities;
      slots := population;
      tours := shuffled;
    }

    /** The first half of `newGeneration`: the mating prefix, the choice of
        the two mates, their crossover and the greedy mutation of each child.
        The population is not changed; the children are new lists. */
    method Breed(d: Metric, g: Draws) returns (child1: Tour, child2: Tour)
      requires Valid() && Ready(cities, tours, g)
      ensures fresh(child1) && fresh(child2) && child1 != child2
      ensures (child1.cities, child2.cities) == Children(d, cities, tours, g)
    {
      MatesReady(cities, tours, g);
      var prefix := MatingPrefix(g.mating);
      var mate1 := slots[..prefix][g.mate1];
      var mate2 := slots[..prefix][g.mate2];
      assert mate1.cities == tours[g.mate1] && mate2.cities == tours[g.mate2];
      child1, child2 := Crossover(d, mate1, mate2, g.momCut, g.popCut);
      PermutationDistinct(mate1.cities, mate2.cities);
      ChildLength(d, mate1.cities, mate2.cities, g.momCut);
      ChildLength(d, mate2.cities, mate2.cities, g.popCut);
      var kept1 := GreedyMutate(d, child1, g.greedy1);
      var kept2 := GreedyMutate(d, child2, g.greedy2);
    }

    /** The replacement test of `newGeneration`: a new list takes slot `k`
        only when it is strictly shorter than the tour there. */
    method ReplaceIfShorter(d: Metric, k: nat, child: Tour)
      requires Valid() && |cities| >= 1 && k < SIZE && child !in slots
      requires |child.cities| == |cities| && multiset(child.cities) == multiset(cities)
      modifies this
      ensures Valid()
      ensures tours == Replaced(d, old(tours), k, child.cities)
      ensures slots == old(slots) || slots == old(slots)[k := child]
    {
      var length := TourLength(d, child.cities);
      var worst := TourLength(d, slots[k].cities);
      if length < worst {
        slots := slots[k := child];
        tours := tours[k := child.cities];
      }
    }

    /** `mutate(population[k])`: the random swap on one slot; no other list
        is touched. */
    method MutateSlot(k: nat, a: nat, b: nat)
      requires Valid() && k < SIZE && a < |cities| && b < |cities|
      modifies this, slots[k]
      ensures Valid() && slots == old(slots)
      ensures tours == old(tours)[k := Swapped(old(tours)[k], a, b)]
    {
      SwappedPermutation(slots[k].cities, a, b);
      Mutate(slots[k], a, b);
      tours := tours[k := slots[k].cities];
    }

    /** The second half of `newGeneration`: the two replacement tests and
        the occasional random swap. */
    method ReplaceAndMutate(d: Metric, child1: Tour, child2: Tour, g: Draws)
      requires Valid() && |cities| >= 3 && ValidDraws(g, |cities|)
      requires child1 !in slots && child2 !in slots && child1 != child2
      requires |child1.cities| == |cities| && multiset(child1.cities) == multiset(cities)
      requires |child2.cities| == |cities| && multiset(child2.cities) == multiset(cities)
      modifies this, slots, child1, child2
      ensures Valid()
      ensures tours == GenerationWith(d, cities, old(tours), old(child1.cities), old(child2.cities), g)
      ensures tours[0] == old(tours)[0]
      ensures forall k :: 0 <= k < SIZE ==> slots[k] == old(slots[k]) || slots[k] == child1 || slots[k] == child2
    {
      ghost var c1, c2, t0 := child1.cities, child2.cities, tours;
      ReplaceIfShorter(d, SIZE - 2, child1);
      ReplaceIfShorter(d, SIZE - 1, child2);
      assert tours == Replaced(d, Replaced(d, t0, SIZE - 2, c1), SIZE - 1, c2);
      if g.chance < MUTATION_RATE {
        MutateSlot(g.victim, g.swapA, g.swapB);
      }
    }

    /** `newGeneration`, on the population in place. */
    method NewGeneration(d: Metric, g: Draws)
      requires Valid() && |cities| >= 3 && ValidDraws(g, |cities|)
      modifies this, slots
      ensures Valid()
      ensures tours == NextGeneration(d, cities, old(tours), g)
      ensures tours[0] == old(tours)[0]
      ensures forall k :: 0 <= k < SIZE ==> slots[k] == old(slots[k]) || fresh(slots[k])
    {
      assert Ready(cities, tours, g);
      ChildrenPermutation(d, cities, tours, g);
      var child1, child2 := Breed(d, g);
      NextGenerationWith(d, cities, tours, g, child1.cities, child2.cities);
      ReplaceAndMutate(d, child1, child2, g);
    }

    /** `population.sort(key = tourLength)`: the population reordered,
        shortest tour first; the lists themselves are not changed. */
    method SortByLength(d: Metric)
      requires Valid() && |cities| >= 1
      modifies this
      ensures Valid() && SortedByLength(d, tours)
      ensures multiset(tours) == multiset(old(tours))
      ensures multiset(slots) == multiset(old(slots))
    {
      assert forall m :: 0 <= m < SIZE ==> |slots[m].cities| == |cities|;
      var keyed := Keys(d, slots);
      var sorted := SortByKey(keyed);
      MapPermutation(sorted, keyed, ListOf);
      MapPermutation(sorted, keyed, CitiesOf);
      assert Map(keyed, ListOf) == slots;
      assert Map(keyed, CitiesOf) == tours;
      KeyedEntries(d, cities, slots, keyed, sorted);
      PermutationDistinct(slots, Map(sorted, ListOf));
      slots := Map(sorted, ListOf);
      tours := Map(sorted, CitiesOf);
    }
  }
}
