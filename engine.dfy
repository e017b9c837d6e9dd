/** The driver of the genetic algorithm: `tspGA`'s generation loop and the
    best-so-far tracking of `report`. */
module Engine {
  import opened Sequences
  import opened Tours
  import opened Generation

  /** The tracking part of `report`: the length of the first tour of the
      population when it beats `minLength`, `minLength` otherwise. */
  method Report(d: Metric, population: Population, minLength: real) returns (best: real)
    requires population.Valid() && |population.cities| >= 1
    ensures best <= minLength && best <= Length(d, population.tours[0])
    ensures best == minLength || best == Length(d, population.tours[0])
  {
    best := minLength;
    var currentBest := TourLength(d, population.slots[0].cities);
    if currentBest < best {
      best := currentBest;
    }
  }

  /** One pass of `tspGA`'s loop: `report`, `newGeneration` and the sort.
      The first tour never gets longer and stays within the best so far,
      which never grows. */
  method OneGeneration(d: Metric, population: Population, g: Draws, bestSoFar: real) returns (best: real)
    requires population.Valid() && |population.cities| >= 3 && ValidDraws(g, |population.cities|)
    requires SortedByLength(d, population.tours) && Length(d, population.tours[0]) <= bestSoFar
    modifies population, population.slots
    ensures population.Valid() && SortedByLength(d, population.tours)
    ensures best <= bestSoFar && Length(d, population.tours[0]) <= best
    ensures Length(d, population.tours[0]) <= Length(d, old(population.tours[0]))
    ensures forall k :: 0 <= k < SIZE ==> fresh(population.slots[k]) || population.slots[k] in old(population.slots)
  {
    best := Report(d, population, bestSoFar);
    ghost var before, cities := population.tours, population.cities;
    ghost var lists0 := population.slots;
    population.NewGeneration(d, g);
    ghost var bred, lists := population.tours, population.slots;
    population.SortByLength(d);
    SortedFirstIsShortest(d, bred, population.tours);
    forall k | 0 <= k < SIZE ensures fresh(population.slots[k]) || population.slots[k] in lists0 {
      assert population.slots[k] in multiset(lists);
      var p :| 0 <= p < SIZE && lists[p] == population.slots[k];
    }
  }

  /** `tspGA` on the given cities: make and sort the population, then for
      `GENERATIONS` generations report, breed and re-sort; the result is the
      length of the first tour of the last population. `shuffles` are the
      draws of `makePopulation`, `draws` those of each `newGeneration`. */
  method TspGA(d: Metric, cities: seq<City>, shuffles: seq<seq<nat>>, draws: seq<Draws>) returns (length: real)
    requires Distinct(cities) && |cities| >= 3
    requires |shuffles| == SIZE && forall k :: 0 <= k < SIZE ==> ShuffleDraws(shuffles[k], |cities|)
    requires |draws| == GENERATIONS && forall n :: 0 <= n < GENERATIONS ==> ValidDraws(draws[n], |cities|)
    ensures exists tour: seq<City> :: |tour| == |cities| && multiset(tour) == multiset(cities) && Length(d, tour) == length
    ensures forall k :: 0 <= k < SIZE ==> length <= Length(d, Shuffled(cities, shuffles[k]))
  {
    var population := new Population.Make(cities, shuffles);
    ghost var initial, lists := population.tours, population.slots;
    population.SortByLength(d);
    SortedFirstIsShortest(d, initial, population.tours);
    forall k | 0 <= k < SIZE ensures fresh(population.slots[k]) {
      assert population.slots[k] in multiset(lists);
    }
    var bestSoFar := TourLength(d, population.slots[0].cities);
    for gen := 0 to GENERATIONS
      invariant fresh(population) && population.cities == cities && population.Valid()
      invariant forall k :: 0 <= k < SIZE ==> fresh(population.slots[k])
      invariant SortedByLength(d, population.tours)
      invariant Length(d, population.tours[0]) <= bestSoFar
      invariant forall k :: 0 <= k < SIZE ==> bestSoFar <= Length(d, Shuffled(cities, shuffles[k]))
    {
      bestSoFar := OneGeneration(d, population, draws[gen], bestSoFar);
    }
    length := TourLength(d, population.slots[0].cities);
  }
}
