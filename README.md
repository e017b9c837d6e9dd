# A verified model of a genetic algorithm for the travelling-salesman problem

`tsp.py` evolves a population of `SIZE = 350` tours over a fixed city list
for `GENERATIONS = 10000` generations. Each generation:

- picks two mates from a random prefix of the population, which is sorted by tour length;
- crosses them over by inserting a cut segment of one parent into what is left of a tour;
- applies `greedy_mutate` to each child in place: the child takes the first strictly shorter placement of one drawn city; when there is none, the city is left at the last index, which can lengthen the child;
- lets each child replace one of the two last (worst) slots when strictly shorter;
- with probability `MUTATION_RATE = 0.20` swaps two cities of one random slot other than the first.

The population is re-sorted after each generation. The best length seen so far is tracked by `report`.

The model is in six modules:

- `Sequences` covers the list edits the program uses: `pop`, `insert`, element exchange and the filtering comprehension. It also holds the multiset facts that keep a tour a permutation.
- `Tours` holds:
  - cities, as natural-number indices;
  - the distance, as a parameter `d: Metric` constrained by `IsMetric` (non-negative, symmetric, zero on equal points);
  - the closed-tour length `Length` and the accumulator loop `TourLength`;
  - the mutable list class `Tour`.
- `Mutation` covers `swap`, `mutate` and `greedy_mutate`, working in place on a `Tour`.
- `Recombination` covers `crossover`. Its two duplicated blocks become one method, `CrossInto`, called with the arguments the code uses for each child.
- `Generation` has:
  - the constants;
  - `random.shuffle`, as the Fisher–Yates swaps with supplied draws;
  - the class `Population`, whose methods implement `makePopulation`, `newGeneration` and the sort by length;
  - the ghost specification functions `GenerationWith`, `NextGeneration` and `Children`, which these methods are proved against.
- `Engine` covers the tracking part of `report` and the generation loop of `tspGA`.

Every random draw (`randrange`, `choice`, `shuffle`, `random`) is a parameter, and the range it comes from is a precondition. The draws of one generation are collected in the datatype `Generation.Draws`.

Where the code differs from a textbook description of the crossover, the model follows the code:

- the insertion positions tried are `0 .. len(remainder) - 1`, so the end of the remainder is never tried;
- the starting best and the default child are the donor `mom` (for `child2`, `pop`), not the recipient;
- `child2` cuts its segment from `pop` and also builds its remainder from `pop`, rather than crossing the roles of the parents;
- a cut needs at least three cities, because `randrange(1, n - 1)` is empty for `n <= 2`.

## Model

| member | source | states |
|---|---|---|
| Sequences.Swapped | tsp.py:135-138 | the list with the two indices exchanged: same length, the two entries traded, every other index unchanged |
| Sequences.SwappedPermutation | tsp.py:135-138 | exchanging two entries keeps the same multiset of cities |
| Sequences.Remove | tsp.py:149-151 | `list.pop(k)` leaves one element fewer |
| Sequences.Insert | tsp.py:152 | `list.insert(k, x)` adds one element, and `x` lands at index `k` |
| Sequences.RemoveInsert | tsp.py:149-152 | popping the element just inserted at `k` gives the list back |
| Sequences.Without | tsp.py:88 | the filtering comprehension never lengthens the list |
| Sequences.WithoutMembers | tsp.py:88 | a city survives the filter exactly when it is in the list and not in the cut |
| Sequences.WithoutCount | tsp.py:88 | the filter drops every copy of a cut city and keeps every copy of the others |
| Sequences.WithoutMultiset | tsp.py:87-88 | when each cut city occurs once and the cut is duplicate-free, remainder plus cut is the original multiset, so the remainder has `n - len` cities |
| Sequences.PermutationDistinct | tsp.py:77-78 | a rearrangement of distinct cities is duplicate-free |
| Sequences.MapPermutation | tsp.py:232 | rearranging the sorted entries rearranges the lists and tours taken from them the same way |
| Tours.Tour.constructor | tsp.py:77 | a new list holding the given cities (`cities[:]`) |
| Tours.TourLength | tsp.py:16-23 | the accumulator loop computes `Length`: the consecutive edges in order, then the closing edge from the last city to the first |
| Tours.LengthNonNegative | tsp.py:16-23 | under a metric no tour has negative length |
| Tours.LengthSingleCity | tsp.py:16-23 | a one-city tour has length 0 |
| Tours.RotateLength | tsp.py:16-23 | every cyclic rotation of a tour has the same length |
| Tours.ReversedLength | tsp.py:16-23 | with a symmetric distance, a tour travelled backwards has the same length |
| Mutation.Swap | tsp.py:135-138 | `swap` leaves the list as `Swapped` of the old list |
| Mutation.Mutate | tsp.py:159-162 | the random swap on the two drawn positions, whatever it does to the length |
| Mutation.Relocate | tsp.py:149-152 | after `pop(i)` and `insert(j, a)`, the drawn city sits at index `j` and the length is kept |
| Mutation.RelocatePermutation | tsp.py:149-152 | moving one city keeps the tour a permutation |
| Mutation.RelocateStep | tsp.py:148-152 | popping the city from `j - 1` and inserting it at `j` turns the placement at `j - 1` into the placement at `j`, so after step `j` the list is the original with the city moved to `j` |
| Mutation.NoImprovementBeforeMeans | tsp.py:153-155 | the running "no strictly shorter placement yet" check holds exactly when no placement below `j` is strictly shorter |
| Mutation.GreedyIndex | tsp.py:147-155 | the index where the scan stops lies within the list |
| Mutation.GreedyIndexFirst | tsp.py:154-155 | the scan stops at the first strictly shorter placement |
| Mutation.GreedyIndexNone | tsp.py:147-156 | with no strictly shorter placement the scan runs to the last index |
| Mutation.GreedyIndexFrom | tsp.py:147-156 | the scan stops where nothing before is shorter, and that placement is strictly shorter or is the last index with nothing shorter anywhere |
| Mutation.GreedyInPlace | tsp.py:141-156 | the caller's list after `greedy_mutate` keeps its length |
| Mutation.GreedyInPlacePermutation | tsp.py:141-156 | the caller's list after `greedy_mutate` is a permutation of the input |
| Mutation.GreedyInPlaceMeans | tsp.py:141-156 | the caller's list ends with the city at the first strictly shorter placement, all earlier placements being no shorter, or at the last index when no placement is strictly shorter |
| Mutation.GreedyMutate | tsp.py:141-156 | the caller's list ends as `GreedyInPlace`; the result is never longer than the input; returning the caller's list means a strictly shorter tour; returning another list means a fresh copy of the input, with no placement strictly shorter |
| Mutation.SquareMetric | tsp.py:12-13 | the four-corner square distance satisfies `IsMetric` |
| Mutation.LengthOfFour | tsp.py:16-23 | a four-city tour's length is its four edges |
| Mutation.SquareLengths | tsp.py:16-23 | the lengths of the square tour (4) and of its three other placements of city 1 (6 each) |
| Mutation.SquareNoImprovement | tsp.py:147-155 | on the square tour, no placement of city 1 is strictly shorter, and the last placement is `[0, 2, 3, 1]` of length 6 |
| Mutation.GreedyMutateCanLengthen | tsp.py:154-156 | the in-place effect of `greedy_mutate` can make the caller's tour strictly longer (4 becomes 6); the caller discards the return value |
| Recombination.Segment | tsp.py:83-87 | the cut holds `len` consecutive cities of the donor starting at `start`, with `1 <= len <= n - 2` |
| Recombination.Candidate | tsp.py:94-97 | a candidate has as many cities as the remainder and the segment together |
| Recombination.BestInsertion | tsp.py:90-102 | the search result is never longer than the fallback |
| Recombination.BestInsertionMinimal | tsp.py:93-102 | no candidate tried is strictly shorter than the search result |
| Recombination.BestInsertionIsFirstShortest | tsp.py:90-102 | the search keeps the fallback, or the first candidate that is strictly shorter than the fallback and than every earlier candidate |
| Recombination.Child | tsp.py:82-105 | a child is never longer than its donor |
| Recombination.InsertSegment | tsp.py:94-97 | inserting the segment's cities one by one at `j + i` places the segment as a block at `j` |
| Recombination.CrossInto | tsp.py:83-105 | the code for one child computes `Child`: the remainder is the recipient without the cut, positions `0 .. len(remainder) - 1` are tried, and the donor is the default |
| Recombination.CandidatePermutation | tsp.py:87-97 | with both parents permutations of the same distinct cities, the remainder has `n - len` cities and every candidate is a permutation |
| Recombination.RemainderSize | tsp.py:83-93 | the remainder has at least two cities, so at least one candidate is tried |
| Recombination.ChildProperties | tsp.py:88-105 | a child is a permutation of the donor and is the donor or the first strictly shortest candidate |
| Recombination.ChildLength | tsp.py:104-105 | a child has as many cities as its donor |
| Recombination.Crossover | tsp.py:82-132 | `crossover` returns two new lists: child1 crosses a cut of `mom` into `pop`, child2 a cut of `pop` into `pop`; the parents are untouched |
| Generation.ShuffleSteps | tsp.py:78 | each shuffle swap keeps the list length |
| Generation.ShuffleStepsPermutation | tsp.py:78 | the shuffle swaps keep the same cities |
| Generation.Shuffled | tsp.py:78 | a shuffled list is a permutation of the original |
| Generation.Shuffle | tsp.py:78 | `random.shuffle` in place leaves the list as `Shuffled` of the old one |
| Generation.MatingPrefix | tsp.py:167-171 | `int(SIZE * m / 1000)` for `50 <= m < 950` is the floor of `350 m / 1000`, between 17 and 332, so the prefix the mates come from is non-empty and within the population |
| Generation.MatesReady | tsp.py:170-173 | both mates are tours of the population and are permutations of the same distinct cities, fit for crossover |
| Generation.Offspring | tsp.py:173-176 | the two children keep the mates' number of cities |
| Generation.OffspringPermutation | tsp.py:173-176 | after crossover and the in-place greedy mutation, both children are permutations of the mates' cities |
| Generation.Children | tsp.py:170-176 | the children of a ready population have as many cities as the city list |
| Generation.ChildrenPermutation | tsp.py:170-176 | the children of a ready population are permutations of the cities |
| Generation.Replaced | tsp.py:179-182 | only slot `k` can change, and it takes the child exactly when the child is strictly shorter |
| Generation.AfterMutation | tsp.py:185-187 | the random swap keeps the population size |
| Generation.GenerationWith | tsp.py:179-187 | the population after the replacement tests and the random swap keeps `SIZE` slots |
| Generation.NextGeneration | tsp.py:165-187 | the population after one generation keeps `SIZE` slots |
| Generation.NextGenerationWith | tsp.py:173-187 | a generation is the replacement and random swap applied to its own children |
| Generation.ReplacedPermutations | tsp.py:179-182 | replacing a slot by a permutation of the cities keeps every slot one |
| Generation.AfterMutationPermutations | tsp.py:185-187 | the random swap keeps every slot a permutation |
| Generation.GenerationWithPermutations | tsp.py:179-187 | with permutations as children, every slot stays a permutation of the cities |
| Generation.NextGenerationPermutations | tsp.py:165-187 | after a generation every slot is still a permutation of the cities |
| Generation.GenerationWithSlots | tsp.py:179-187 | slot 0 is never written; slots 1 .. SIZE-3 change only by the swap of the drawn slot; slots SIZE-2 and SIZE-1 keep their tour when it is no longer than the child and take the child when it is strictly shorter |
| Generation.NextGenerationNoLonger | tsp.py:165-187 | a generation keeps slot 0 and makes no slot longer except the one swap-mutated |
| Generation.SortedFirstIsShortest | tsp.py:232-237 | after the sort the first tour is no longer than any tour of the population |
| Generation.Keys | tsp.py:232 | the sort keys are `tourLength` of each list, taken once per list |
| Generation.KeyedEntries | tsp.py:232 | every entry of a rearrangement of the keys is a population list with its cities and its length as key |
| Generation.SinkingStep | tsp.py:232 | one exchange keeps the entries and lets the sinking entry move down one place |
| Generation.SinkEntry | tsp.py:232 | one insertion step keeps the entries and orders the first `i + 1` by key |
| Generation.SortByKey | tsp.py:232 | the sort returns a permutation of the entries in ascending key order |
| Generation.Population.constructor | tsp.py:74-79 | `makePopulation` makes `SIZE` new, distinct lists, the k-th being `Shuffled` of the cities with its own draws |
| Generation.Population.Breed | tsp.py:167-176 | the two children of `newGeneration` are new lists equal to `Children` of the population, and the population is unchanged |
| Generation.Population.ReplaceIfShorter | tsp.py:179-182 | a child takes slot `k` only when strictly shorter (`Replaced`), and the population stays valid |
| Generation.Population.MutateSlot | tsp.py:185-187 | the random swap changes only the drawn slot's list, by `Swapped` |
| Generation.Population.ReplaceAndMutate | tsp.py:179-187 | the two replacement tests and the swap give `GenerationWith`; slot 0 is unchanged; a slot holds its old list or one of the children |
| Generation.Population.NewGeneration | tsp.py:165-187 | `newGeneration` in place gives `NextGeneration` of the old population; the population stays valid; slot 0 is unchanged; every slot holds its old list or a new one |
| Generation.Population.SortByLength | tsp.py:232 | `sort(key = tourLength)` leaves the population a permutation of its lists, sorted by length, and valid |
| Engine.Report | tsp.py:218-223 | the result is `min(tourLength(population[0]), minLength)` |
| Engine.OneGeneration | tsp.py:234-237 | one loop pass keeps the population valid and sorted; `bestSoFar` never grows; the first tour never gets longer and stays within `bestSoFar` |
| Engine.TspGA | tsp.py:227-241 | the returned length is that of a permutation of the cities, and it is no longer than any tour of the initial population |

## Left out

- `readCities` (tsp.py:30-43) is not part of this model: it reads a file and parses floats. The cities are given as a list of distinct indices.
- `drawTour` and the drawing call in `tspGA` (tsp.py:46-64, tsp.py:240) are not part of this model: they draw with turtle graphics.
- `histogram`, `main` and `report`'s printing and generation-number tests (tsp.py:190-216, tsp.py:243-246, tsp.py:211-215, tsp.py:220) are not part of this model: they only write to the console.
- `distance` (tsp.py:12-13): the square root and float arithmetic are not modelled. The distance is a parameter, and lengths are exact reals, so rounding in the sums is not captured.
- `random.*`: the draws are parameters with range preconditions. Their distribution is not modelled. `random.shuffle` is modelled as Fisher–Yates swaps, one per index from the last down to 1.
- `Generation.MatingPrefix`: `SIZE * MATING_FRACTION` is taken exactly, as the floor of `350 m / 1000`. Float rounding of `m / 1000` is not modelled.
- `Generation.Population.SortByLength`: `list.sort` is a library call. It is modelled by an insertion sort with keys taken once per list, and only its promise (a sorted permutation) is stated. Stability is not stated.
- `Mutation.GreedyMutate`: that the returned list is a permutation of the input is not an ensures of the method. It follows from its ensures together with `GreedyInPlacePermutation`: the result is either the caller's list, equal to `GreedyInPlace`, or a copy of the input.
- `Engine.TspGA`: the result is stated relative to the initial population. That the final length never exceeds any earlier `bestSoFar` is stated per pass by `Engine.OneGeneration`.
- Mutating a list through an alias elsewhere is not modelled: each population slot is a distinct list, and so are the two children.
- Tours of fewer than three cities are excluded by preconditions, because `randrange(1, n - 1)` in `crossover` fails on them.
