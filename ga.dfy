/** The genetic-algorithm engine (class `GA`): builds a population of routes
    (one nearest-neighbour route and random ones), then for a fixed number
    of generations ranks it by length, replaces every non-elite route by a
    crossover of an elite with it, records the first route as the best one,
    and reverses randomly chosen routes.

    The float rates of the source enter as the counts derived from them:
    `eliteQty` for `int(populations * elite_rate)`, `mutationQty` for
    `int(populations * mutation_rate)`, and `variantQty(n)` for
    `int(variant_rate * n)` on a route of `n` cities. */
module Genetic {
  import opened Lists
  import opened Distances
  import opened Routes
  import opened Crossover
  import opened Random

  /** The ranking key of `routes.sort(key = lambda x: x.length)`. */
  function LengthKey(r: Route): real {
    r.length
  }

  /** The population after the in-place stable sort by length. */
  function Ranked(routes: seq<Route>): seq<Route> {
    SortBy(routes, LengthKey)
  }

  /** The sort key of the greedy step: the negated distance from `from`
      (every city the engine handles has a row, so the fallback is never
      taken). */
  function NegatedDistance(table: seq<seq<real>>, from: nat, x: nat): real {
    if from < |table| && x < |table[from]| then -table[from][x] else 0.0
  }

  function NegatedDistanceFrom(table: seq<seq<real>>, from: nat): nat -> real {
    (x: nat) => NegatedDistance(table, from, x)
  }

  /** After sorting by negated distance from `cur`, the last city is one
      nearest to `cur`. */
  lemma NearestIsLast(table: seq<seq<real>>, cur: nat, pool: seq<nat>)
    requires IsSquare(table) && cur < |table| && InTable(table, pool) && |pool| >= 1
    ensures var sorted := SortBy(pool, NegatedDistanceFrom(table, cur));
      multiset(sorted) == multiset(pool) && InTable(table, sorted) &&
      forall x :: x in pool ==> table[cur][sorted[|sorted| - 1]] <= table[cur][x]
  {
    var key := NegatedDistanceFrom(table, cur);
    var sorted := SortBy(pool, key);
    PermutationInTable(table, sorted, pool);
    SortByLastIsMax(pool, key);
    var last := sorted[|sorted| - 1];
    forall x | x in pool ensures table[cur][last] <= table[cur][x] {
      var k :| 0 <= k < |pool| && pool[k] == x;
      assert key(x) <= key(last);
    }
  }

  /** Each city of `route` after the first is one nearest to its
      predecessor among the cities placed after it and those still in
      `pool`. */
  ghost predicate PlacedNearest(table: seq<seq<real>>, route: seq<nat>, pool: seq<nat>)
    requires IsSquare(table) && InTable(table, route) && InTable(table, pool)
  {
    (forall t, u :: 1 <= t <= u < |route| ==> table[route[t - 1]][route[t]] <= table[route[t - 1]][route[u]]) &&
    (forall t, x :: 1 <= t < |route| && x in pool ==> table[route[t - 1]][route[t]] <= table[route[t - 1]][x])
  }

  /** `route` starts at `start` and each later city is one nearest to its
      predecessor among the cities not placed before it. */
  ghost predicate NearestNeighbourTour(table: seq<seq<real>>, start: nat, route: seq<nat>)
    requires IsSquare(table) && InTable(table, route)
  {
    |route| >= 1 && route[0] == start && PlacedNearest(table, route, [])
  }

  /** The state of the greedy construction: `route` starts at the last
      city of `all`, each placed city is nearest among those placed after it
      and those left in `pool`, and no city is lost or repeated. */
  ghost predicate GreedyState(table: seq<seq<real>>, all: seq<nat>, route: seq<nat>, pool: seq<nat>) {
    IsSquare(table) && |all| >= 1 && |route| >= 1 && route[0] == all[|all| - 1] &&
    multiset(route) + multiset(pool) == multiset(all) &&
    InTable(table, route) && InTable(table, pool) && PlacedNearest(table, route, pool)
  }

  /** The construction starts with the last city placed and the others in
      the pool. */
  lemma GreedyStart(table: seq<seq<real>>, all: seq<nat>)
    requires CitiesValid(table, all)
    ensures GreedyState(table, all, [all[|all| - 1]], all[..|all| - 1])
  {
    assert all == all[..|all| - 1] + [all[|all| - 1]];
  }

  /** With the pool empty, the route is a nearest-neighbour tour of the
      cities. */
  lemma GreedyDone(table: seq<seq<real>>, all: seq<nat>, route: seq<nat>)
    requires CitiesValid(table, all) && GreedyState(table, all, route, [])
    ensures CitiesValid(table, route) && multiset(route) == multiset(all)
    ensures NearestNeighbourTour(table, all[|all| - 1], route)
  {
    DrawnCitiesValid(table, all, route);
  }

  /** One greedy step: sorting the pool by negated distance from the last
      placed city and moving its last city to the route keeps the state. */
  lemma GreedyStep(table: seq<seq<real>>, all: seq<nat>, route: seq<nat>, pool: seq<nat>)
      returns (next: nat, rest: seq<nat>)
    requires GreedyState(table, all, route, pool) && |pool| >= 1
    ensures SortBy(pool, NegatedDistanceFrom(table, route[|route| - 1])) == rest + [next]
    ensures GreedyState(table, all, route + [next], rest)
  {
    var cur := route[|route| - 1];
    NearestIsLast(table, cur, pool);
    var sorted := SortBy(pool, NegatedDistanceFrom(table, cur));
    next := sorted[|sorted| - 1];
    rest := sorted[..|sorted| - 1];
    assert sorted == rest + [next];
    assert next in sorted;
    ExtendNearest(table, route, pool, next, rest);
  }

  /** Appending a city of the pool that is nearest to the last placed city
      keeps every placed city nearest. */
  lemma ExtendNearest(table: seq<seq<real>>, route: seq<nat>, pool: seq<nat>, next: nat, rest: seq<nat>)
    requires IsSquare(table) && |route| >= 1 && InTable(table, route) && InTable(table, pool)
    requires PlacedNearest(table, route, pool)
    requires multiset(pool) == multiset(rest) + multiset{next} && next < |table|
    requires forall x :: x in pool ==> table[route[|route| - 1]][next] <= table[route[|route| - 1]][x]
    ensures InTable(table, rest) && InTable(table, route + [next])
    ensures PlacedNearest(table, route + [next], rest)
  {
    assert next in multiset(pool);
    RemainingInPool(table, pool, next, rest);
    var r := route + [next];
    forall k | 0 <= k < |r| ensures r[k] < |table| {
      if k < |route| {
        assert r[k] == route[k];
      }
    }
    forall t, u | 1 <= t <= u < |r| ensures table[r[t - 1]][r[t]] <= table[r[t - 1]][r[u]] {
      assert r[t - 1] == route[t - 1];
      if u < |route| {
        assert r[t] == route[t] && r[u] == route[u];
      } else if t < |route| {
        assert r[t] == route[t] && r[u] == next && next in pool;
      }
    }
    forall t, x | 1 <= t < |r| && x in rest ensures table[r[t - 1]][r[t]] <= table[r[t - 1]][x] {
      assert r[t - 1] == route[t - 1] && x in pool;
      if t < |route| {
        assert r[t] == route[t];
      }
    }
  }

  /** What is left of the pool after taking one city out is still in the
      pool and in the table. */
  lemma RemainingInPool(table: seq<seq<real>>, pool: seq<nat>, next: nat, rest: seq<nat>)
    requires InTable(table, pool) && multiset(pool) == multiset(rest) + multiset{next}
    ensures InTable(table, rest)
    ensures forall x :: x in rest ==> x in pool
  {
    forall x | x in rest ensures x in pool {
      assert x in multiset(rest);
      assert x in multiset(pool);
    }
    forall k | 0 <= k < |rest| ensures rest[k] < |table| {
      assert rest[k] in pool;
    }
  }

  /** A route reversed `times` times. */
  function Flipped(s: seq<nat>, times: nat): seq<nat> {
    if times % 2 == 0 then s else Reverse(s)
  }

  /** The cities are distinct names that all have a row in the table. */
  ghost predicate CitiesValid(table: seq<seq<real>>, cities: seq<nat>) {
    IsDistanceTable(table) && |cities| >= 1 && NoDuplicates(cities) && InTable(table, cities)
  }

  /** A route drawn from valid cities, without loss or repetition, is itself
      a valid city list. */
  lemma DrawnCitiesValid(table: seq<seq<real>>, cities: seq<nat>, route: seq<nat>)
    requires CitiesValid(table, cities) && multiset(route) == multiset(cities)
    ensures CitiesValid(table, route) && |route| == |cities|
  {
    PermutationInTable(table, route, cities);
  }

  /** `route` visits every city exactly once and `length` is its cyclic
      length. */
  ghost predicate RouteValid(table: seq<seq<real>>, cities: seq<nat>, route: seq<nat>, length: real) {
    CitiesValid(table, cities) && multiset(route) == multiset(cities) &&
    |route| >= 1 && InTable(table, route) && length == CyclicLength(table, route)
  }

  /** `picked[t]` is the route popped by pass `t`: the one at
      `positions[t]` once the earlier passes have moved theirs. */
  ghost predicate PickLog<T>(s: seq<T>, positions: seq<nat>, picked: seq<T>)
    decreases |positions|
  {
    |picked| == |positions| && (forall t :: 0 <= t < |positions| ==> positions[t] < |s|) &&
    (positions != [] ==>
       var n := |positions| - 1;
       PickLog(s, positions[..n], picked[..n]) && picked[n] == MoveAll(s, positions[..n])[positions[n]])
  }

  lemma PickLogExtend<T>(s: seq<T>, positions: seq<nat>, picked: seq<T>, j: nat)
    requires PickLog(s, positions, picked) && j < |s|
    ensures PickLog(s, positions + [j], picked + [MoveAll(s, positions)[j]])
    ensures MoveAll(s, positions + [j]) == MoveToEnd(MoveAll(s, positions), j)
  {
    var x := MoveAll(s, positions)[j];
    assert (positions + [j])[..|positions|] == positions;
    assert (picked + [x])[..|picked|] == picked;
  }

  /** Reversing once more flips the parity. */
  lemma FlippedStep(s: seq<nat>, times: nat)
    ensures Flipped(s, times + 1) == Reverse(Flipped(s, times))
  {
    if times % 2 == 0 {
      assert (times + 1) % 2 == 1;
    } else {
      assert (times + 1) % 2 == 0;
      ReverseInvolution(s);
    }
  }

  /** A route reversed any number of times still visits every city once and
      keeps its cyclic length, the table being symmetric. */
  lemma FlippedValid(table: seq<seq<real>>, cities: seq<nat>, route: seq<nat>, length: real, times: nat)
    requires RouteValid(table, cities, route, length)
    ensures RouteValid(table, cities, Flipped(route, times), length)
  {
    ReverseMultiset(route);
    CyclicLengthReverse(table, route);
  }

  class GA {
    /** The city list, drained while a route is drawn and then reset to a
        copy of that route. */
    var cities: seq<nat>
    const distanceMap: DistanceMap
    const level: nat
    const populations: nat
    const variantQty: nat -> nat
    const mutationQty: nat
    const eliteQty: nat
    /** Set by the constructor; null only before it has run. */
    var bestResult: Route?

    ghost predicate CitiesOk()
      reads this`cities
    {
      CitiesValid(distanceMap.table, cities)
    }

    ghost predicate RouteOk(r: Route)
      reads this`cities, r
    {
      RouteValid(distanceMap.table, cities, r.route, r.length)
    }

    ghost predicate PopulationOk(routes: seq<Route>)
      reads this`cities, routes
    {
      forall r :: r in routes ==> RouteOk(r)
    }

    ghost predicate Valid()
      reads this`cities, this`bestResult, bestResult
    {
      bestResult != null && RouteOk(bestResult)
    }

    constructor (cities: seq<nat>, distanceMap: DistanceMap, level: nat, populations: nat,
                 variantQty: nat -> nat, mutationQty: nat, eliteQty: nat, rng: IndexOracle)
      requires distanceMap.Valid() && |cities| >= 1 && NoDuplicates(cities)
      requires InTable(distanceMap.table, cities)
      modifies rng
      ensures Valid() && fresh(bestResult)
      ensures this.distanceMap == distanceMap && this.level == level && this.populations == populations
      ensures this.variantQty == variantQty && this.mutationQty == mutationQty && this.eliteQty == eliteQty
      ensures multiset(this.cities) == multiset(cities) && this.cities == bestResult.route
    {
      this.cities := cities;
      this.distanceMap := distanceMap;
      this.level := level;
      this.populations := populations;
      this.variantQty := variantQty;
      this.mutationQty := mutationQty;
      this.eliteQty := eliteQty;
      bestResult := null;
      new;
      bestResult := CreateRoute(rng);
    }

    /** `_create_route`: pops randomly chosen cities until the list is empty,
        then resets the list to a copy of the drawn route. */
    method CreateRoute(rng: IndexOracle) returns (r: Route)
      requires CitiesOk()
      modifies this`cities, rng
      ensures fresh(r) && cities == r.route
      ensures multiset(cities) == multiset(old(cities))
      ensures RouteOk(r)
    {
      ghost var all := cities;
      var route: seq<nat> := [];
      while cities != []
        invariant multiset(route) + multiset(cities) == multiset(all)
        decreases |cities|
      {
        var i := rng.Choice(|cities|);
        var j := IndexOf(cities, cities[i]);
        PopMultiset(cities, j);
        route := route + [cities[j]];
        cities := cities[..j] + cities[j + 1..];
      }
      cities := route;
      DrawnCitiesValid(distanceMap.table, all, route);
      r := new Route(route, distanceMap);
    }

    /** `_create_greedy_route`: starts from the last city of the list; then,
        repeatedly, sorts the remaining cities by negated distance from the
        last placed one and pops the last, which is a nearest one. */
    method CreateGreedyRoute() returns (r: Route)
      requires CitiesOk()
      modifies this`cities
      ensures fresh(r) && cities == r.route
      ensures multiset(cities) == multiset(old(cities))
      ensures RouteOk(r)
      ensures NearestNeighbourTour(distanceMap.table, old(cities)[|old(cities)| - 1], r.route)
    {
      ghost var all := cities;
      var table := distanceMap.table;
      GreedyStart(table, all);
      var route := [cities[|cities| - 1]];
      cities := cities[..|cities| - 1];
      while cities != []
        invariant GreedyState(table, all, route, cities)
        decreases |cities|
      {
        var curCity := route[|route| - 1];
        ghost var next, rest := GreedyStep(table, all, route, cities);
        cities := SortBy(cities, NegatedDistanceFrom(table, curCity));
        assert cities[..|cities| - 1] == rest;
        route := route + [cities[|cities| - 1]];
        cities := cities[..|cities| - 1];
      }
      GreedyDone(table, all, route);
      cities := route;
      r := new Route(route, distanceMap);
    }

    /** `_init_routes`: the greedy route followed by `populations - 1`
        random routes (so a single route when `populations` is 0). */
    method InitRoutes(rng: IndexOracle) returns (routes: seq<Route>)
      requires Valid()
      modifies this`cities, rng
      ensures Valid() && multiset(cities) == multiset(old(cities))
      ensures |routes| == if populations == 0 then 1 else populations
      ensures forall r :: r in routes ==> fresh(r)
      ensures PopulationOk(routes)
      ensures RouteOk(routes[0]) &&
              NearestNeighbourTour(distanceMap.table, old(cities)[|old(cities)| - 1], routes[0].route)
    {
      var greedy := CreateGreedyRoute();
      ghost var greedyRoute := greedy.route;
      routes := [greedy];
      var n := 0;
      while n < populations - 1
        invariant 0 <= n && (n == 0 || n <= populations - 1)
        invariant |routes| == n + 1 && routes[0] == greedy
        invariant Valid() && multiset(cities) == multiset(old(cities))
        invariant forall r :: r in routes ==> fresh(r)
        invariant PopulationOk(routes)
        invariant greedy.route == greedyRoute
      {
        var random := CreateRoute(rng);
        routes := routes + [random];
        n := n + 1;
      }
    }

    /** The first `int(variant_rate * len(elite))` cities of an elite route
        (the whole route when that count exceeds its length, as slicing
        does). */
    function ElitePrefix(elite: seq<nat>): seq<nat> {
      elite[..if variantQty(|elite|) <= |elite| then variantQty(|elite|) else |elite|]
    }

    function Offspring(elite: seq<nat>, child: seq<nat>): seq<nat> {
      OrderedCrossover(ElitePrefix(elite), child)
    }

    /** `_crossover`: copies the elite's prefix, collecting its cities in a
        set, then appends the child's cities that are not in that set. */
    method Crossover(elite: Route, child: Route) returns (r: Route)
      requires distanceMap.Valid()
      requires InTable(distanceMap.table, ElitePrefix(elite.route)) && InTable(distanceMap.table, child.route)
      requires Offspring(elite.route, child.route) != []
      ensures fresh(r) && r.route == Offspring(elite.route, child.route)
      ensures RouteOk(elite) && RouteOk(child) ==> RouteOk(r)
    {
      var prefix := ElitePrefix(elite.route);
      var eliteGeneSet: set<nat> := {};
      var newChild: seq<nat> := [];
      for k := 0 to |prefix|
        invariant newChild == prefix[..k] && eliteGeneSet == Elements(prefix[..k])
      {
        assert prefix[..k + 1] == prefix[..k] + [prefix[k]];
        eliteGeneSet := eliteGeneSet + {prefix[k]};
        newChild := newChild + [prefix[k]];
      }
      assert prefix[..|prefix|] == prefix;
      var childRoute := child.route;
      for k := 0 to |childRoute|
        invariant newChild == prefix + Without(childRoute[..k], eliteGeneSet)
      {
        WithoutPrefixStep(childRoute, k, eliteGeneSet);
        if childRoute[k] !in eliteGeneSet {
          newChild := newChild + [childRoute[k]];
        }
      }
      assert childRoute[..|childRoute|] == childRoute;
      CrossoverShape(prefix, childRoute);
      assert InTable(distanceMap.table, newChild) by {
        forall k | 0 <= k < |newChild| ensures newChild[k] < |distanceMap.table| {
          assert newChild[k] in newChild;
        }
      }
      r := new Route(newChild, distanceMap);
      if RouteOk(elite) && RouteOk(child) {
        var q := |prefix|;
        assert prefix == elite.route[..q];
        CrossoverPermutation(elite.route, child.route, q);
      }
    }

    /** `_update_best_gene`: overwrites the best route. */
    method UpdateBestGene(bestRoute: Route)
      modifies this`bestResult
      ensures bestResult == bestRoute
    {
      bestResult := bestRoute;
    }

    /** `_get_next_gen`: sorts the population by length; each route at an
        index `i` from `eliteQty` up to `populations` is replaced by the
        crossover of elite `i % eliteQty` with it; then the first route
        becomes the best route, whether or not it is shorter than the one
        recorded before. */
    method GetNextGen(routes: seq<Route>) returns (next: seq<Route>)
      requires Valid() && PopulationOk(routes)
      requires 1 <= |routes| && populations <= |routes|
      requires eliteQty < populations ==> eliteQty >= 1
      modifies this`bestResult
      ensures Valid() && PopulationOk(next) && |next| == |routes|
      ensures NextGeneration(next, Ranked(routes), RoutesOf(Ranked(routes)), populations)
      ensures forall k :: eliteQty <= k < populations ==> fresh(next[k])
      ensures forall r :: r in next ==> r in routes || fresh(r)
      ensures forall k, m :: 0 <= k < eliteQty && k <= m < |routes| ==> next[k].length <= Ranked(routes)[m].length
      ensures forall r :: r in routes ==> next[0].length <= r.length
      ensures bestResult == next[0]
    {
      var ranked := Ranked(routes);
      RankedPopulation(routes);
      next := Breed(ranked);
      forall r | r in next ensures r in routes || fresh(r) {
        var k :| 0 <= k < |next| && next[k] == r;
      }
      RankedOrder(routes);
      assert next[0] in next;
      ghost var parents := RoutesOf(ranked);
      UpdateBestGene(next[0]);
      assert parents == RoutesOf(ranked);
      assert NextGeneration(next, ranked, parents, populations);
    }

    /** The replacement loop of `_get_next_gen` on the ranked population. */
    method Breed(ranked: seq<Route>) returns (next: seq<Route>)
      requires PopulationOk(ranked) && populations <= |ranked|
      requires eliteQty < populations ==> eliteQty >= 1
      ensures PopulationOk(next)
      ensures NextGeneration(next, ranked, RoutesOf(ranked), populations)
      ensures forall k :: eliteQty <= k < populations ==> fresh(next[k])
    {
      next := ranked;
      ghost var parents := RoutesOf(ranked);
      var i := eliteQty;
      while i < populations
        invariant eliteQty <= i <= if eliteQty <= populations then populations else eliteQty
        invariant NextGeneration(next, ranked, parents, i) && parents == RoutesOf(ranked)
        invariant forall k :: eliteQty <= k < i ==> fresh(next[k])
        invariant PopulationOk(next)
      {
        next := ReplaceWithOffspring(next, ranked, parents, i);
        i := i + 1;
      }
    }

    /** `routes[i] = self._crossover(routes[i % elites_qty], routes[i])`. */
    method ReplaceWithOffspring(next: seq<Route>, ghost ranked: seq<Route>, ghost parents: seq<seq<nat>>, i: nat)
      returns (next': seq<Route>)
      requires NextGeneration(next, ranked, parents, i) && parents == RoutesOf(ranked)
      requires PopulationOk(next) && 1 <= eliteQty <= i < |next|
      ensures NextGeneration(next', ranked, parents, i + 1) && parents == RoutesOf(ranked)
      ensures PopulationOk(next') && fresh(next'[i]) && next' == next[i := next'[i]]
    {
      var elite := next[i % eliteQty];
      BreedParents(next, ranked, parents, i);
      OffspringDefined(elite, next[i]);
      var child := Crossover(elite, next[i]);
      NextGenerationExtend(next, ranked, parents, i, child);
      next' := next[i := child];
    }

    /** After the in-place replacement up to `hi`: the routes outside
        `eliteQty .. hi - 1` are those of `ranked`, in place; each route at an
        index `k` inside it is the offspring of elite `k % eliteQty` and of
        the route that was at `k` (`parents` holds the city lists of
        `ranked`). */
    ghost predicate NextGeneration(next: seq<Route>, ranked: seq<Route>, parents: seq<seq<nat>>, hi: nat)
      reads next
    {
      |next| == |ranked| == |parents| &&
      (forall k :: 0 <= k < |next| && !(eliteQty <= k < hi) ==> next[k] == ranked[k]) &&
      (forall k {:trigger BredAt(next, parents, k)} :: 0 < eliteQty <= k < hi && k < |next| ==> BredAt(next, parents, k))
    }

    /** The route at `k` is the offspring of elite `k % eliteQty` and of the
        route that was at `k`. */
    ghost predicate BredAt(next: seq<Route>, parents: seq<seq<nat>>, k: nat)
      requires 0 < eliteQty && k < |next| && k < |parents|
      reads next
    {
      next[k].route == Offspring(parents[k % eliteQty], parents[k])
    }

    /** The two parents of the route at `i` are valid and are those ranked
        at `i % eliteQty` and at `i`. */
    lemma BreedParents(next: seq<Route>, ranked: seq<Route>, parents: seq<seq<nat>>, i: nat)
      requires NextGeneration(next, ranked, parents, i) && PopulationOk(next) && parents == RoutesOf(ranked)
      requires 1 <= eliteQty <= i < |next|
      ensures RouteOk(next[i % eliteQty]) && RouteOk(next[i])
      ensures next[i % eliteQty].route == parents[i % eliteQty] && next[i].route == parents[i]
    {
      assert next[i % eliteQty] in next && next[i] in next;
    }

    /** Storing a valid offspring at `i` extends the replacement by one. */
    lemma NextGenerationExtend(next: seq<Route>, ranked: seq<Route>, parents: seq<seq<nat>>, i: nat, child: Route)
      requires NextGeneration(next, ranked, parents, i) && PopulationOk(next) && 1 <= eliteQty <= i < |next|
      requires RouteOk(child) && child.route == Offspring(parents[i % eliteQty], parents[i])
      ensures NextGeneration(next[i := child], ranked, parents, i + 1) && PopulationOk(next[i := child])
    {
      PopulationOkUpdate(next, i, child);
      var next' := next[i := child];
      forall k {:trigger BredAt(next', parents, k)} | eliteQty <= k < i + 1 && k < |next|
        ensures BredAt(next', parents, k)
      {
        if k < i {
          assert BredAt(next, parents, k);
        }
      }
    }

    ghost function RoutesOf(routes: seq<Route>): (r: seq<seq<nat>>)
      reads routes
      ensures |r| == |routes| && forall k :: 0 <= k < |routes| ==> r[k] == routes[k].route
    {
      seq(|routes|, k requires 0 <= k < |routes| reads routes => routes[k].route)
    }

    /** The ranked population is the population: same routes, each valid,
        sorted by length. */
    lemma RankedPopulation(routes: seq<Route>)
      requires PopulationOk(routes)
      ensures |Ranked(routes)| == |routes| && PopulationOk(Ranked(routes))
      ensures forall r :: r in Ranked(routes) <==> r in routes
    {
      var ranked := Ranked(routes);
      assert multiset(ranked) == multiset(routes);
      forall r ensures r in ranked <==> r in routes {
        assert r in ranked <==> r in multiset(ranked);
        assert r in routes <==> r in multiset(routes);
      }
      forall r | r in ranked ensures RouteOk(r) {
        assert r in multiset(ranked);
        assert r in routes;
      }
    }

    /** Ranking orders the routes by length, the first being a shortest. */
    static lemma RankedOrder(routes: seq<Route>)
      ensures forall k, m :: 0 <= k <= m < |Ranked(routes)| ==> Ranked(routes)[k].length <= Ranked(routes)[m].length
      ensures forall r :: r in routes ==> Ranked(routes)[0].length <= r.length
    {
      var ranked := Ranked(routes);
      SortBySorted(routes, LengthKey);
      forall k, m | 0 <= k <= m < |routes| ensures ranked[k].length <= ranked[m].length {
        if k < m {
          assert LengthKey(ranked[k]) <= LengthKey(ranked[m]);
        }
      }
      forall r | r in routes ensures ranked[0].length <= r.length {
        assert r in multiset(ranked);
        var m :| 0 <= m < |ranked| && ranked[m] == r;
      }
    }

    /** Two valid routes can be crossed: the result is not empty and all its
        cities have rows. */
    lemma OffspringDefined(elite: Route, child: Route)
      requires RouteOk(elite) && RouteOk(child)
      ensures InTable(distanceMap.table, ElitePrefix(elite.route))
      ensures Offspring(elite.route, child.route) != []
    {
      CrossoverShape(ElitePrefix(elite.route), child.route);
    }

    lemma PopulationOkUpdate(routes: seq<Route>, i: nat, r: Route)
      requires PopulationOk(routes) && RouteOk(r) && i < |routes|
      ensures PopulationOk(routes[i := r])
    {
      forall x | x in routes[i := r] ensures RouteOk(x) {
        var k :| 0 <= k < |routes[i := r]| && routes[i := r][k] == x;
        if k != i {
          assert x == routes[k];
        }
      }
    }

    /** `_mutate`: `mutationQty` times, pops a randomly chosen route (the
        first occurrence of the chosen one), reverses its city order in
        place and appends it. A route may be chosen more than once, so each
        route ends reversed as many times as it was chosen (`picked` lists
        the choices, `positions` the popped indices); lengths are not
        recomputed, and stay right because the table is symmetric. */
    method Mutate(routes: seq<Route>, rng: IndexOracle) returns (next: seq<Route>, ghost positions: seq<nat>, ghost picked: seq<Route>)
      requires PopulationOk(routes)
      requires mutationQty > 0 ==> |routes| >= 1
      modifies routes, rng
      ensures PopulationOk(next)
      ensures |positions| == mutationQty && PickLog(routes, positions, picked)
      ensures next == MoveAll(routes, positions)
      ensures forall k :: 0 <= k < |routes| ==>
                routes[k].route == Flipped(old(routes[k].route), multiset(picked)[routes[k]])
    {
      ghost var original := RoutesOf(routes);
      assert forall k :: 0 <= k < |routes| ==> RouteValid(distanceMap.table, cities, original[k], routes[k].length) by {
        forall k | 0 <= k < |routes| ensures RouteOk(routes[k]) {
          assert routes[k] in routes;
        }
      }
      next, positions, picked := routes, [], [];
      for n := 0 to mutationQty
        invariant |positions| == n && PickLog(routes, positions, picked)
        invariant next == MoveAll(routes, positions)
        invariant FlipLog(routes, original, picked)
      {
        next, positions, picked := MutateOnce(routes, original, next, positions, picked, rng);
      }
      FlippedPopulation(routes, original, picked, next);
    }

    /** Routes whose city lists were valid stay valid, however often each
        was reversed, and so does any reordering of them. */
    lemma FlippedPopulation(routes: seq<Route>, original: seq<seq<nat>>, picked: seq<Route>, next: seq<Route>)
      requires FlipLog(routes, original, picked)
      requires forall k :: 0 <= k < |routes| ==> RouteValid(distanceMap.table, cities, original[k], routes[k].length)
      requires multiset(next) == multiset(routes)
      ensures PopulationOk(next)
    {
      forall r | r in next ensures RouteOk(r) {
        assert r in multiset(routes);
        var k :| 0 <= k < |routes| && routes[k] == r;
        FlippedValid(distanceMap.table, cities, original[k], r.length, multiset(picked)[r]);
      }
    }

    /** One pass of `_mutate`: pops the first occurrence of a randomly chosen
        route, reverses it in place and appends it. */
    method MutateOnce(ghost routes: seq<Route>, ghost original: seq<seq<nat>>, next: seq<Route>,
                      ghost positions: seq<nat>, ghost picked: seq<Route>, rng: IndexOracle)
      returns (next': seq<Route>, ghost positions': seq<nat>, ghost picked': seq<Route>)
      requires |routes| >= 1 && PickLog(routes, positions, picked) && next == MoveAll(routes, positions)
      requires FlipLog(routes, original, picked)
      modifies routes, rng
      ensures |positions'| == |positions| + 1 && PickLog(routes, positions', picked')
      ensures next' == MoveAll(routes, positions') && FlipLog(routes, original, picked')
      ensures positions'[..|positions|] == positions && next' == MoveToEnd(next, positions'[|positions|])
      ensures old(rng.draws) != [] ==> positions'[|positions|] == IndexOf(next, next[old(rng.draws)[0] % |next|])
      ensures old(rng.draws) == [] ==> positions'[|positions|] == IndexOf(next, next[0])
    {
      var i := rng.Choice(|next|);
      var j := IndexOf(next, next[i]);
      var mutationRoute := next[j];
      assert mutationRoute in multiset(routes);
      PickLogExtend(routes, positions, picked, j);
      Flip(mutationRoute, routes, original, picked);
      next' := next[..j] + next[j + 1..] + [mutationRoute];
      positions' := positions + [j];
      assert next' == MoveToEnd(next, j);
      picked' := picked + [mutationRoute];
      assert positions'[..|positions|] == positions;
    }

    /** Each route of `routes` is its original city list, reversed once per
        time it was picked. */
    ghost predicate FlipLog(routes: seq<Route>, original: seq<seq<nat>>, picked: seq<Route>)
      reads routes
    {
      |original| == |routes| &&
      forall k :: 0 <= k < |routes| ==> routes[k].route == Flipped(original[k], multiset(picked)[routes[k]])
    }

    /** The in-place reversal of a picked route. */
    method Flip(m: Route, ghost routes: seq<Route>, ghost original: seq<seq<nat>>, ghost picked: seq<Route>)
      requires m in routes && FlipLog(routes, original, picked)
      modifies m
      ensures m.route == Reverse(old(m.route))
      ensures FlipLog(routes, original, picked + [m])
    {
      m.route := Reverse(m.route);
      forall k | 0 <= k < |routes|
        ensures routes[k].route == Flipped(original[k], multiset(picked + [m])[routes[k]])
      {
        if routes[k] == m {
          FlippedStep(original[k], multiset(picked)[m]);
        } else {
          assert multiset(picked + [m])[routes[k]] == multiset(picked)[routes[k]];
        }
      }
    }

    /** One pass of the loop of `_evolve`: `_get_next_gen`, then `_mutate`. */
    method Generation(routes: seq<Route>, rng: IndexOracle) returns (next: seq<Route>)
      requires Valid() && PopulationOk(routes)
      requires 1 <= |routes| && populations <= |routes|
      requires eliteQty < populations ==> eliteQty >= 1
      modifies this`bestResult, (set r | r in routes), rng
      ensures Valid() && PopulationOk(next) && |next| == |routes|
      ensures forall r :: r in next ==> r in routes || fresh(r)
      ensures bestResult in next
      ensures old(bestResult) in routes ==> bestResult.length <= old(bestResult).length
    {
      var bred := GetNextGen(routes);
      assert bestResult in multiset(bred);
      ghost var positions, picked;
      next, positions, picked := Mutate(bred, rng);
      forall r | r in next ensures r in bred {
        assert r in multiset(bred);
      }
      assert bestResult in next;
    }

    /** `_evolve`: builds the population, then runs `level` generations of
        ranking-and-crossover followed by mutation. With no generation the
        best route stays the random one drawn by the constructor. */
    method Evolve(rng: IndexOracle) returns (ghost population: seq<Route>)
      requires Valid()
      requires level > 0 && eliteQty < populations ==> eliteQty >= 1
      modifies this`cities, this`bestResult, rng
      ensures Valid() && multiset(cities) == multiset(old(cities))
      ensures |population| == if populations == 0 then 1 else populations
      ensures forall r :: r in population ==> fresh(r)
      ensures PopulationOk(population)
      ensures level == 0 ==> bestResult == old(bestResult)
      ensures level > 0 ==> bestResult in population
    {
      var routes := InitRoutes(rng);
      for g := 0 to level
        invariant Valid() && multiset(cities) == multiset(old(cities))
        invariant |routes| == if populations == 0 then 1 else populations
        invariant forall r :: r in routes ==> fresh(r)
        invariant PopulationOk(routes)
        invariant g == 0 ==> bestResult == old(bestResult)
        invariant g > 0 ==> bestResult in routes
      {
        routes := Generation(routes, rng);
      }
      population := routes;
    }
  }
}
