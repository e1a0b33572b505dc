# Genetic-algorithm TSP solver — a verified model

`homework.py` searches for a short closed tour through points in three
dimensions with a genetic algorithm. This project models its engine in
Dafny and proves what the engine guarantees. The modelled parts are:

- the distance table (`DistanceMap`);
- a tour and its cyclic length (`Route`);
- the engine (`GA`):
  - random and nearest-neighbour route construction, which drain the
    engine's city list and then reset it to a copy of the route;
  - the initial population;
  - ranking by length followed by ordered crossover of elites with the
    other routes;
  - reversal mutation;
  - recording the best route;
  - the generation loop.

A city is its name: the index of its point in the input. The modules are:

| file | module | models |
|---|---|---|
| `lists.dfy` | `Lists` | the list built-ins the engine relies on: `index`, `pop` then `append`, `[::-1]`, and the stable `sorted` / `sort` with a key (as an insertion sort) |
| `random.dfy` | `Random` | `random.choice` as an oracle of index draws supplied by the caller |
| `distance_map.dfy` | `Distances` | class `DistanceMap` |
| `route.dfy` | `Routes` | class `Route`, with the path and cyclic lengths as functions |
| `crossover.dfy` | `Crossover` | the ordered crossover as a function on city lists |
| `ga.dfy` | `Genetic` | class `GA` |

The engine is imperative and so is the model:

- `GA.cities` and `GA.bestResult` are fields that the methods reassign.
- `Route.route` is reversed in place by mutation.
- Each loop of the source is a `while` or `for` loop with invariants.

Each method is proved against specification functions: `CyclicLength`,
`OrderedCrossover`, `SortBy`, `MoveAll` and `Flipped`. Separate lemmas
prove what those functions guarantee.

The float rates of the constructor enter as the counts derived from them:

- `eliteQty` stands for `int(populations * elite_rate)`;
- `mutationQty` stands for `int(populations * mutation_rate)`;
- `variantQty(n)` stands for `int(variant_rate * n)`.

`math.sqrt` is a parameter of the distance table. All that is assumed of
it is that it is never negative and that it maps 0 to 0.

Some behaviour of the code differs from a first reading, and the model
follows the code:

- The greedy route is a nearest-neighbour tour. The remaining cities are
  sorted by the negated distance from the last placed city, and the last
  of them is popped, so the nearest city comes next.
- The mutation loop picks with replacement. A reversed route is appended
  back before the next pick, so one route can be reversed several times
  (`Flipped` counts the reversals).
- `_get_next_gen` overwrites the best route unconditionally with the
  first ranked route.
- After the first generation, the best route never gets longer (see
  `Generation`). The first generation can make it longer, because the
  route the constructor drew at random is not part of the population.
- With `level` 0, the best route stays the constructor's random route,
  not the greedy one.

## Model

| member | source | states |
|---|---|---|
| Distances.PartialSquaredDistanceSymmetric | homework.py:32-34 | the sum of squared coordinate differences does not depend on the order of the two points |
| Distances.PartialSquaredDistanceSelf | homework.py:32-34 | the sum of squared coordinate differences of a point with itself is 0 |
| Distances.PointTableIsDistanceTable | homework.py:26-36 | a table whose entry `[i][j]` is the square root of the squared distance between points `i` and `j` is square, non-negative, zero on the diagonal and symmetric |
| Distances.DistanceMap.CreateDistanceMap | homework.py:26-36 | the nested loops produce one row per point, and entry `[i][j]` is the square root of the sum over three coordinates of the squared differences; the result is a distance table |
| Distances.DistanceMap.constructor | homework.py:23-24 | the stored table is the one `create_distance_map` builds, so it is a distance table with one row per city |
| Distances.DistanceMap.Distance | homework.py:37-38 | the distance between two cities does not depend on their order, is never negative, and is 0 between a city and itself |
| Routes.PathLengthReverse | homework.py:17-18 | on a symmetric table, walking a path backwards gives the same sum |
| Routes.CyclicLengthReverse | homework.py:15-20 | on a symmetric table, reversing a route leaves its cyclic length unchanged, so the length that mutation does not recompute stays right; a one-city route has length 0 |
| Routes.Route.SetLength | homework.py:15-20 | the loop's result is the sum of the entries for consecutive cities plus the entry between the first and the last city |
| Routes.Route.constructor | homework.py:12-14 | the route keeps its city list, and its length is the cyclic length of that list |
| Random.IndexOracle.Choice | homework.py:53 | a draw names a position inside the list it picks from, and consumes one draw of the oracle |
| Lists.Reverse | homework.py:98 | `[::-1]` has the same length, and position `k` holds the element at `n - 1 - k` |
| Lists.ReverseMultiset | homework.py:98 | reversing keeps every element and its number of occurrences |
| Lists.IndexOf | homework.py:53 | `index` gives the first position that holds the element |
| Lists.PopMultiset | homework.py:53 | popping position `j` removes exactly the element at `j` |
| Lists.MoveToEnd | homework.py:97-99 | popping an element and appending it keeps the length and the elements, and puts that element last |
| Lists.MoveAll | homework.py:96-99 | a series of pops with appends keeps the length and the elements |
| Lists.Insert | homework.py:62 | inserting into a list adds exactly that element |
| Lists.SortBy | homework.py:62 | sorting keeps the length and the elements |
| Lists.InsertSorted | homework.py:62 | inserting into a list sorted by the key keeps it sorted |
| Lists.SortBySorted | homework.py:62 | the sorted list is in ascending order of the key |
| Lists.SortByLastIsMax | homework.py:62-63 | the last element of the sorted list has the largest key of all the elements |
| Crossover.WithoutAppend | homework.py:89-91 | filtering a concatenation filters each part in turn |
| Crossover.WithoutPrefixStep | homework.py:89-91 | one more pass of the child loop appends the city unless the elite prefix holds it |
| Crossover.WithoutCount | homework.py:89-91 | the filter drops every city in the elite prefix and keeps every other city as often as it occurs in the child |
| Crossover.CrossoverShape | homework.py:81-92 | the offspring starts with the elite prefix; every city after the prefix comes from the child and is not in the prefix; a city is in the offspring exactly when it is in the prefix, or in the child and not in the prefix |
| Crossover.CrossoverPermutation | homework.py:81-92 | when the elite and the child hold the same cities, each once, the offspring holds those same cities, each once, and has the child's length |
| Genetic.NearestIsLast | homework.py:61-63 | after sorting by negated distance from the current city, the last city is one nearest to it among the remaining cities |
| Genetic.GreedyStart | homework.py:58-59 | after popping the last city into the route, the greedy invariant holds |
| Genetic.GreedyStep | homework.py:60-63 | one pass of the greedy loop keeps the invariant: no city lost or repeated, the route starts at the last city of the list, and each placed city is nearest to its predecessor among the cities not placed before it |
| Genetic.ExtendNearest | homework.py:61-63 | appending a nearest remaining city to the route keeps every placed city nearest to its predecessor |
| Genetic.RemainingInPool | homework.py:63 | the cities left after the pop were all in the list before it |
| Genetic.GreedyDone | homework.py:60-64 | when the list is empty, the route is a nearest-neighbour tour from the last city, a permutation of the cities |
| Genetic.DrawnCitiesValid | homework.py:52-54 | a route drawn from distinct cities without loss or repetition is a list of distinct cities that all have rows |
| Genetic.PickLogExtend | homework.py:96-99 | one more pass of the mutation loop extends the record of picks, and moves the picked route to the end |
| Genetic.FlippedStep | homework.py:98 | one more reversal flips the parity of the number of reversals |
| Genetic.FlippedValid | homework.py:98 | a route reversed any number of times still visits the same cities, each once, with the same cyclic length |
| Genetic.GA.constructor | homework.py:41-49 | stores the parameters and records as the best route a random route; the city list becomes a copy of that route |
| Genetic.GA.CreateRoute | homework.py:50-55 | the route is a permutation of the incoming city list; afterwards the list equals the route; the route's length is its cyclic length |
| Genetic.GA.CreateGreedyRoute | homework.py:57-65 | the route is a permutation of the incoming city list that starts at its last city, and each later city is one nearest to its predecessor among those not yet placed; afterwards the list equals the route |
| Genetic.GA.InitRoutes | homework.py:67-72 | returns `populations` routes (one when `populations` is 0), all valid and new, of which the first is the nearest-neighbour route; the list of cities keeps its cities |
| Genetic.GA.Crossover | homework.py:81-92 | the new route's cities are the elite's prefix followed by the child's cities missing from it, in the child's order; it is a valid route when both parents are |
| Genetic.GA.UpdateBestGene | homework.py:101-102 | the best route becomes the given route |
| Genetic.GA.GetNextGen | homework.py:74-79 | the population is ranked by length; the routes outside `eliteQty .. populations - 1` are the ranked ones, unchanged; each route at `i` inside it is the crossover of ranked route `i % eliteQty` with ranked route `i`; the elites are in ascending length order and no longer than any route ranked after them; the best route is the first one and no longer than any route of the input |
| Genetic.GA.Breed | homework.py:77-78 | the replacement loop: each slot from `eliteQty` to `populations - 1` holds a new offspring of elite `i % eliteQty` and of the route that was ranked at `i`; every other slot is untouched |
| Genetic.GA.ReplaceWithOffspring | homework.py:78 | slot `i` becomes a new route, the crossover of elite `i % eliteQty` with the route at `i`; every other slot is unchanged and the replacement extends by one slot |
| Genetic.GA.NextGenerationExtend | homework.py:78 | storing the offspring at `i` extends the replacement by one slot and keeps every route valid |
| Genetic.GA.RankedPopulation | homework.py:75 | sorting the population keeps exactly its routes, all valid |
| Genetic.GA.RankedOrder | homework.py:75 | the sorted population is in ascending order of length, and its first route is no longer than any route of the population |
| Genetic.GA.PopulationOkUpdate | homework.py:78 | overwriting a slot with a valid route keeps every route valid |
| Genetic.GA.Mutate | homework.py:94-99 | `mutationQty` passes; the result is the population with the picked routes moved to the end, one after the other, so it has the same routes and size; every route is its old city list reversed once per time it was picked; all routes stay valid |
| Genetic.GA.MutateOnce | homework.py:97-99 | one pass draws a position with the oracle (`random.choice`), pops the first occurrence of the route found there (`index`), reverses it and appends it: the new population is the old one with that route moved to the end, and the pick log grows by exactly that position |
| Genetic.GA.Flip | homework.py:98 | the picked route's city list is reversed in place, and no other route changes |
| Genetic.GA.FlippedPopulation | homework.py:94-99 | after the reversals, and whatever the order, every route of the population is still valid |
| Genetic.GA.Generation | homework.py:106-108 | one generation keeps the population's size and validity, and its routes are the old ones or new offspring; the best route is in the new population; if the previous best was in the population, the new best is no longer |
| Genetic.GA.Evolve | homework.py:104-108 | `level` generations on the initial population, needing at least one elite only when a generation runs; the population keeps its size, and all its routes stay valid; with no generation the best route is unchanged, otherwise it is a route of the final population |

## Left out

- Reading and writing the point files and the script that runs the solver
  (`homework.py:113-135`) are I/O and are not modelled. The population
  handed to `Evolve` is its own initial population.
- `City` (`homework.py:5-10`) is not modelled: a city is its name, and
  `get_name` is the identity.
- `_get_best_gene` (`homework.py:110-111`) only reads a field. The model
  reads `bestResult` directly.
- The value of `math.sqrt` is not modelled. The table takes it as a
  parameter that is never negative and maps 0 to 0.
- Floating point is not modelled: lengths are exact reals. With float
  addition, a reversed route's sum can differ in its last bits, so
  `Routes.CyclicLengthReverse` holds for the exact sums only.
- The truncating products `int(rate * n)` are not modelled. The counts
  they produce are parameters.
- The distribution of `random.choice` is not modelled. The draws are an
  explicit oracle, which answers 0 once it runs out.
- The engine's city list is the caller's list in the source, so the first
  draw empties the caller's list. The model's field is a value, so that
  aliasing is not captured.
- The population is a list that `_get_next_gen` and `_mutate` update in
  place. The model passes it in as a sequence and returns the new one.
  The routes it holds are shared objects, and mutation reverses them in
  place.
- `Lists.SortBy` is stable by construction (an insertion sort), but
  stability is not stated as a property. The greedy step proves only
  that a nearest city is chosen, not which one among equally near cities.
- Genetic.GA.GetNextGen: requires at least one elite when some route is
  to be replaced. The source divides by the elite count there and raises
  `ZeroDivisionError` when it is 0.
- Genetic.GA.Crossover: requires a non-empty offspring. An empty route
  makes `set_length` raise `IndexError`.
- Genetic.GA.Mutate: requires a non-empty population when a pass is to be
  made. `random.choice` raises `IndexError` on an empty list.
- Routes.Route.constructor, Routes.Route.SetLength, Genetic.GA.constructor
  and Genetic.GA.CreateRoute: require at least one city. On an empty list,
  `set_length` (`homework.py:19`) raises `IndexError` at `route[0]`.
- Genetic.GA.CreateGreedyRoute: requires at least one city. On an empty
  list, the first `pop` (`homework.py:59`) raises `IndexError`.
