/**
 * The savings heuristic as the class `CVRP`: one problem instance together
 * with the list of routes that `merge_routes` rewrites in place.
 */
module ClarkeWright {
  import opened Wrappers
  import opened Savings
  import opened Routes

  /** Every key of the savings dictionary is mapped to its saving. */
  ghost predicate ValuesAgree<N>(keys: seq<(N, N)>, values: map<(N, N), int>, depot: N, distances: N -> N -> int)
  {
    forall key :: key in keys ==> key in values && values[key] == SavingValue(depot, distances, key.0, key.1)
  }

  lemma ValuesAgreeStore<N>(keys: seq<(N, N)>, values: map<(N, N), int>, depot: N, distances: N -> N -> int, i: N, j: N)
    requires ValuesAgree(keys, values, depot, distances)
    ensures ValuesAgree(InsertKey(keys, (i, j)), values[(i, j) := distances(depot)(i) + distances(depot)(j) - distances(i)(j)], depot, distances)
  {
  }

  /** `savings.items()`: the entries of the dictionary in key order. */
  function DictItems<N(==)>(keys: seq<(N, N)>, values: map<(N, N), int>): seq<Saving<N>>
    requires forall k :: 0 <= k < |keys| ==> keys[k] in values
  {
    seq(|keys|, k requires 0 <= k < |keys| => Saving(keys[k].0, keys[k].1, values[keys[k]]))
  }

  lemma DictItemsAgree<N>(keys: seq<(N, N)>, values: map<(N, N), int>, depot: N, distances: N -> N -> int)
    requires ValuesAgree(keys, values, depot, distances)
    ensures DictItems(keys, values) == Items(depot, distances, keys)
  {
  }

  class CVRP<N(==)> {
    const depot: N
    const customers: seq<N>
    const distances: N -> N -> int
    const demands: N -> int
    const capacity: int
    const numVehicles: int
    var routes: seq<seq<N>>

    /**
     * The object invariant: all routes are depot tours, merged ones within
     * the capacity, and together they serve each customer as often as it
     * occurs in `customers`.
     */
    ghost predicate Valid()
      reads this
    {
      RoutesInvariant(routes, depot, demands, capacity) && Customers(routes) == multiset(customers)
    }

    /** `__init__`: stores the instance and starts with one round trip per customer. */
    constructor (depot: N, customers: seq<N>, distances: N -> N -> int, demands: N -> int,
                 capacity: int, numVehicles: int)
      ensures this.depot == depot && this.customers == customers && this.distances == distances
      ensures this.demands == demands && this.capacity == capacity && this.numVehicles == numVehicles
      ensures |routes| == |customers|
      ensures forall k :: 0 <= k < |routes| ==> routes[k] == [depot, customers[k], depot]
      ensures Valid()
    {
      this.depot := depot;
      this.customers := customers;
      this.distances := distances;
      this.demands := demands;
      this.capacity := capacity;
      this.numVehicles := numVehicles;
      routes := InitialRoutes(depot, customers);
      new;
      InitialRoutesValid(depot, customers, demands, capacity);
    }

    /**
     * `calculate_savings`: the nested loops fill a dictionary keyed by the
     * ordered pair (i, j), kept here as its key order and its map; the
     * items are then sorted by descending value, stably.
     */
    method CalculateSavings() returns (savings: seq<Saving<N>>)
      ensures savings == SavingsList(depot, customers, distances)
    {
      var keys: seq<(N, N)> := [];
      var values: map<(N, N), int> := map[];
      for a := 0 to |customers|
        invariant keys == KeyOrder(PairRows(customers[..a], customers))
        invariant ValuesAgree(keys, values, depot, distances)
      {
        keys, values := StoreRow(customers[a], keys, values, PairRows(customers[..a], customers));
        assert customers[..|customers|] == customers;
        PairRowsStep(customers, customers, a);
      }
      assert customers[..|customers|] == customers;
      DictItemsAgree(keys, values, depot, distances);
      savings := SortDesc(DictItems(keys, values));
    }

    /**
     * The inner loop of `calculate_savings` for customer i: assigns the
     * saving of (i, j) for every other customer j, in the order of
     * `customers`.
     */
    method StoreRow(i: N, keys: seq<(N, N)>, values: map<(N, N), int>, ghost done: seq<(N, N)>)
      returns (keys': seq<(N, N)>, values': map<(N, N), int>)
      requires keys == KeyOrder(done)
      requires ValuesAgree(keys, values, depot, distances)
      ensures keys' == KeyOrder(done + PairRow(i, customers))
      ensures ValuesAgree(keys', values', depot, distances)
    {
      keys', values' := keys, values;
      assert done + PairRow(i, customers[..0]) == done;
      for b := 0 to |customers|
        invariant keys' == KeyOrder(done + PairRow(i, customers[..b]))
        invariant ValuesAgree(keys', values', depot, distances)
      {
        var j := customers[b];
        KeyOrderRowStep(done, i, customers, b);
        if i != j {
          ValuesAgreeStore(keys', values', depot, distances, i, j);
          if (i, j) !in keys' {
            keys' := keys' + [(i, j)];
          }
          values' := values'[(i, j) := distances(depot)(i) + distances(depot)(j) - distances(i)(j)];
        }
      }
      assert customers[..|customers|] == customers;
    }

    /**
     * `merge_routes`: one pass over the savings. For each pair (i, j) the
     * routes holding i and j are looked up; when they differ and their
     * customers together fit the capacity, both are removed and
     * `route_i[:-1] + route_j[1:]` is appended.
     */
    method MergeRoutes(savings: seq<Saving<N>>)
      requires Valid()
      modifies this
      ensures routes == MergeAll(old(routes), savings, demands, capacity)
      ensures |routes| + Merges(old(routes), savings, demands, capacity) == |old(routes)|
      ensures Valid()
    {
      ghost var start := routes;
      for t := 0 to |savings|
        invariant routes == MergeAll(start, savings[..t], demands, capacity)
        invariant Valid()
      {
        var i, j := savings[t].i, savings[t].j;
        assert savings[..t + 1][..t] == savings[..t];
        MergePairPreserves(routes, i, j, depot, demands, capacity);
        var routeI := FindRoute(routes, i);
        var routeJ := FindRoute(routes, j);
        FindRouteIn(routes, i);
        FindRouteIn(routes, j);
        if routeI.Some? && routeJ.Some? && routeI.value != routeJ.value {
          var totalDemand := Demand(Interior(routeI.value) + Interior(routeJ.value), demands);
          if totalDemand <= capacity {
            var newRoute := DropLast(routeI.value) + DropFirst(routeJ.value);
            RemoveFirstKeeps(routes, routeI.value, routeJ.value);
            routes := RemoveFirst(routes, routeI.value);
            routes := RemoveFirst(routes, routeJ.value);
            routes := routes + [newRoute];
          }
        }
      }
      assert savings[..|savings|] == savings;
      MergeAllCount(start, savings, demands, capacity);
    }

    /**
     * `solve`: computes the savings, runs the merge pass and returns the
     * first `num_vehicles` routes; surplus routes are dropped.
     */
    method Solve() returns (result: seq<seq<N>>)
      requires Valid()
      modifies this
      ensures routes == MergeAll(old(routes), SavingsList(depot, customers, distances), demands, capacity)
      ensures result == Fleet(routes, numVehicles)
      ensures forall r :: r in result ==> DepotTour(r, depot) && Fits(r, demands, capacity)
      ensures Valid()
    {
      var savings := CalculateSavings();
      MergeRoutes(savings);
      result := Fleet(routes, numVehicles);
    }
  }
}
