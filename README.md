# Capacitated vehicle routing: two construction heuristics

This project models the two construction heuristics of a small capacitated vehicle routing (CVRP) code base and proves what they guarantee. Only their logic is modelled: the solver integrations, plots and data loading around them are not.

**Savings merge (Clarke–Wright style), class `CVRP`.**
- The constructor starts with one round trip `[depot, c, depot]` per customer.
- `calculate_savings` scores every ordered pair of distinct customers with `d[depot][i] + d[depot][j] - d[i][j]`. It collects the scores in a dictionary and sorts the items by descending score. The sort is stable, so ties keep the dictionary's insertion order.
- `merge_routes` makes one pass over that list. For each pair it looks up the first route containing `i` and the first containing `j`. If these are different routes whose combined interior demand fits the capacity, it removes both and appends `route_i[:-1] + route_j[1:]`.
- `solve` returns the first `num_vehicles` routes.

The class exists twice with identical logic: `VRPBeispiel.py` and `VRPBeispiel/VRPBeispiel.py`. One model covers both. It is generic over a node type with equality, with distances a function `N -> N -> int` and demands `N -> int`.

**Nearest neighbour, `nearest_neighbor`.**
- Nodes are the indices of an n-by-n cost matrix. Every route starts at node 0 and does not return to it.
- A route keeps growing while `load + demands[0] <= capacity`. The guard tests node 0's demand because `current_node` never changes.
- At each step the route appends the nearest unvisited node whose demand still fits. The scan is ascending with a strict `<`, so ties go to the smallest index.
- `calculate_total_distance` adds up the legs of a route.

Modules:
- `Wrappers` (`wrappers.dfy`): `Option`, which stands for Python's `None` results and the `float('inf')`/`None` sentinels.
- `Savings` (`savings.dfy`): pair generation, dictionary key order, the stable descending sort and the savings list as a function.
- `Routes` (`routes.dfy`): Python's slices, `next(...)`, `list.remove` and `routes[:k]`; one merge step, the whole merge pass and the route-list invariant.
- `ClarkeWright` (`cvrp.dfy`): the class `CVRP`, holding a `routes` field that its methods rewrite.
  - `CalculateSavings` runs the outer loop of `calculate_savings` and `StoreRow` the inner one.
  - `MergeRoutes` runs the loop over the savings list.
  - Each is proved against the functions above.
- `CvrpExample` (`example.dfy`): the example instance of `VRPBeispiel.py`, computed step by step.
- `NearestNeighbor` (`nearest_neighbor.dfy`): the route cost and the nearest-neighbour construction.
  - `TotalDistance` is a loop over the route. `NearestNeighbor`, `BuildRoute` and `ScanNearest` work over the `visited` array.
  - They are proved against the spec functions `RouteCost`, `ScanUpTo`, `Extend` and `RoutesFrom`.
- `NearestNeighborExample` (`nn_example.dfy`): the construction on the same matrix and demands with capacity 10.

## Model

| member | source | states |
|---|---|---|
| ClarkeWright.CVRP.constructor | VRPBeispiel.py:2-9 | stores the instance and creates exactly one route `[depot, customers[k], depot]` per customer, in customer order; the object invariant holds; the folder copy has the same code at VRPBeispiel/VRPBeispiel.py lines 6-13 |
| ClarkeWright.CVRP.CalculateSavings | VRPBeispiel.py:11-17 | the nested loops with the dictionary (key order plus map) followed by the stable descending sort return exactly `SavingsList(depot, customers, distances)`; the folder copy has the same code at VRPBeispiel/VRPBeispiel.py lines 16-22 |
| ClarkeWright.CVRP.StoreRow | VRPBeispiel.py:14-16 | the inner loop for customer `i` assigns `savings[(i, j)]` for every other customer `j` in order: the key order grows by the row's pairs and every key keeps its saving as value |
| ClarkeWright.CVRP.MergeRoutes | VRPBeispiel.py:19-29 | the loop over the savings list rewrites `routes` to `MergeAll(old routes, savings)`; the route count falls by the number of accepted merges; the invariant (depot tours, merged routes within capacity, customers conserved) is kept; the folder copy has the same code at VRPBeispiel/VRPBeispiel.py lines 25-35 |
| ClarkeWright.CVRP.Solve | VRPBeispiel.py:31-34 | merges along the savings list, returns `Fleet(routes, num_vehicles)` (the Python prefix `routes[:num_vehicles]`), and every returned route is a depot tour that fits the capacity unless it is an initial singleton; the folder copy has the same code at VRPBeispiel/VRPBeispiel.py lines 37-40 |
| ClarkeWright.DictItemsAgree | VRPBeispiel.py:16-17 | the items of the dictionary, in key order, are the saving entries of its keys |
| ClarkeWright.ValuesAgreeStore | VRPBeispiel.py:16 | storing `savings[(i, j)]` keeps every key's value equal to `d[depot][i] + d[depot][j] - d[i][j]` |
| Savings.PairRowsMembers | VRPBeispiel.py:13-15 | the generated keys are exactly the ordered pairs `(i, j)` of customers with `i != j` |
| Savings.PairRowsCount | VRPBeispiel.py:13-15 | for distinct customers there are `n * (n - 1)` such pairs |
| Savings.PairRowsDistinct | VRPBeispiel.py:13-15 | for distinct customers no pair is generated twice |
| Savings.PairRowMembers | VRPBeispiel.py:14-15 | the inner loop for `i` yields exactly the pairs `(i, j)` with `j != i` |
| Savings.PairRowCount | VRPBeispiel.py:14-15 | the inner loop yields `|cs|` minus the occurrences of `i` pairs |
| Savings.KeyOrderMembers | VRPBeispiel.py:12-16 | the dictionary holds each stored key once, and exactly the stored keys |
| Savings.KeyOrderOfDistinct | VRPBeispiel.py:12-16 | a key sequence without repeats is also the dictionary's key order |
| Savings.KeyOrderSnoc | VRPBeispiel.py:16 | storing a key appends it unless it is already present (insertion order) |
| Savings.InsertPosition | VRPBeispiel.py:17 | one insertion step puts the entry directly before the first entry whose saving is not larger, after all strictly larger ones |
| Savings.InsertPermutes | VRPBeispiel.py:17 | one insertion step of the sort keeps the multiset of entries |
| Savings.InsertSorted | VRPBeispiel.py:17 | one insertion step keeps the list sorted by descending saving |
| Savings.InsertStable | VRPBeispiel.py:17 | one insertion step keeps the relative order of entries with equal saving |
| Savings.SortDescSpec | VRPBeispiel.py:17 | `sorted(..., reverse=True)` gives a list sorted by non-increasing saving that is a permutation of its input and keeps the input order among equal savings |
| Savings.StableSortUnique | VRPBeispiel.py:17 | two descending lists that agree on the order of every group of equal savings are equal, so any stable descending sort gives this list |
| Savings.WithValueMember | VRPBeispiel.py:17 | the entries with saving `v` are exactly the entries whose saving is `v` |
| Savings.GeneratedMember | VRPBeispiel.py:12-16 | an entry is generated iff it is `(i, j)` for distinct customers `i != j` with value `d[depot][i] + d[depot][j] - d[i][j]` |
| Savings.SavingsListSpec | VRPBeispiel.py:11-17 | the savings list is sorted by non-increasing saving, has no repeats, holds exactly the saving entries of ordered pairs of distinct customers, and keeps generation order (i outer, j inner) among equal savings; the folder copy has the same code at VRPBeispiel/VRPBeispiel.py lines 16-22 |
| Savings.SavingsListCount | VRPBeispiel.py:13-17 | for distinct customers the list has `n * (n - 1)` entries |
| Savings.ItemsDistinct | VRPBeispiel.py:17 | distinct keys give distinct items |
| Savings.DistinctPermutation | VRPBeispiel.py:17 | sorting a list without repeats gives a list without repeats |
| Routes.InitialRoutesValid | VRPBeispiel.py:9 | the initial routes are one `[depot, c, depot]` per customer, in order; they satisfy the invariant and serve the multiset of customers |
| Routes.FindRouteSpec | VRPBeispiel.py:21-22 | `next(...)` gives `None` iff no route contains the node, and otherwise the first route that contains it |
| Routes.FindRouteIn | VRPBeispiel.py:21-22 | a found route is one of the routes and contains the node |
| Routes.FirstIndex | VRPBeispiel.py:27-28 | the position `list.remove` deletes: the first one holding an equal value |
| Routes.RemoveFirstMultiset | VRPBeispiel.py:27-28 | `remove` shortens the list by one and takes exactly one copy of the value out of its multiset |
| Routes.RemoveFirstKeeps | VRPBeispiel.py:27-28 | removing one route keeps every other route |
| Routes.CustomersRemove | VRPBeispiel.py:27-28 | removing a route takes exactly its interior customers out of the served multiset |
| Routes.DemandConcat | VRPBeispiel.py:24 | the demand of `route_i[1:-1] + route_j[1:-1]` is the sum of the two parts' demands |
| Routes.MergePairEffect | VRPBeispiel.py:23-29 | a pair is merged iff both routes are found, differ and their interiors' demand is within capacity; then the count drops by one, the last route is `route_i[:-1] + route_j[1:]` and the two source routes are replaced by it; otherwise nothing changes; the folder copy has the same code at VRPBeispiel/VRPBeispiel.py lines 29-35 |
| Routes.SplicedTour | VRPBeispiel.py:26 | the splice of two depot tours is a depot tour whose interior is both interiors concatenated |
| Routes.MergePairPreserves | VRPBeispiel.py:23-29 | one step of the pass keeps every route a depot tour, keeps merged routes within capacity and conserves the multiset of customers |
| Routes.AcceptedKeepsInvariant | VRPBeispiel.py:26-29 | an accepted merge keeps every route a depot tour within capacity |
| Routes.AcceptedKeepsCustomers | VRPBeispiel.py:26-29 | an accepted merge conserves the multiset of served customers |
| Routes.MergeAllPreserves | VRPBeispiel.py:19-29 | the whole pass keeps the invariant and conserves the customers |
| Routes.MergeAllCount | VRPBeispiel.py:19-29 | the route count after the pass is the initial count minus the number of accepted merges |
| Routes.OnExactlyOneRoute | VRPBeispiel.py:9-22 | under the invariant, with distinct customers other than the depot, each customer is on exactly one route, so `next(...)` always finds the customer's route |
| Routes.CustomerHasRoute | VRPBeispiel.py:21-22 | every served customer lies inside some route |
| Routes.UnitDemandsBoundStops | VRPBeispiel/VRPBeispiel.py:31 | with every demand 1 and a positive capacity, as in the folder copy's driver (demand 1, capacity 4), the capacity check on merges keeps every route at no more customers than the capacity |
| Routes.DemandOfUnits | VRPBeispiel/VRPBeispiel.py:83 | with unit demands a route's demand is its number of customers |
| Routes.Fleet | VRPBeispiel.py:34 | `routes[:k]` is a prefix of the list of length `min(k, len)`, and for negative `k` drops `-k` routes from the end; the folder copy has the same code at VRPBeispiel/VRPBeispiel.py lines 40 |
| CvrpExample.ExampleSavings | VRPBeispiel.py:37-48 | on the example instance the savings list is the 12 entries led by `(2, 4, 5)` and `(4, 2, 5)` |
| CvrpExample.ExampleRun | VRPBeispiel.py:37-52 | on the example the merge pass yields `[[0,2,0],[0,4,0],[0,1,3,0]]` and `solve` returns `[[0,2,0],[0,4,0]]` |
| CvrpExample.Example | VRPBeispiel.py:50-51 | constructing the class on the example and calling `Solve` returns `[[0,2,0],[0,4,0]]` |
| NearestNeighbor.TotalDistance | vrpHeuristic.py:40-52 | the loop returns `RouteCost(dist, route)`, the sum of `dist[route[k]][route[k+1]]` over consecutive nodes |
| NearestNeighbor.RouteCostAppend | vrpHeuristic.py:44-50 | a route of fewer than two nodes costs 0; appending a node adds exactly `dist[last][new]` |
| NearestNeighbor.RouteCostConcat | vrpHeuristic.py:44-50 | two routes driven one after the other cost both parts plus the joining leg |
| NearestNeighbor.ScanUpTo | vrpHeuristic.py:70-76 | the scan returns an admissible node (unvisited, its demand fits), or none |
| NearestNeighbor.NearestSpec | vrpHeuristic.py:70-79 | the scan finds nothing iff no node is admissible; otherwise it finds one at minimal distance from the current node, with ties going to the smallest index |
| NearestNeighbor.NearestUnique | vrpHeuristic.py:73-76 | the nearest node, with ties to the smallest index, is unique |
| NearestNeighbor.ScanNearest | vrpHeuristic.py:70-76 | the imperative scan with the unset-minimum sentinel returns exactly `ScanUpTo` |
| NearestNeighbor.Extend | vrpHeuristic.py:68-83 | the inner loop keeps the visited flags' length and only extends the route |
| NearestNeighbor.ExtendFrame | vrpHeuristic.py:73-82 | the inner loop only appends; nodes it appends were unvisited, none is appended twice, and exactly they become visited |
| NearestNeighbor.ExtendLoad | vrpHeuristic.py:74-83 | the load is the running sum of the appended demands, and together with the starting load it never exceeds the capacity once a node was appended |
| NearestNeighbor.ExtendCloses | vrpHeuristic.py:68-79 | a route closes only if the guard `load + demands[0] <= capacity` fails or no unvisited node fits the remaining capacity |
| NearestNeighbor.ExtendStep | vrpHeuristic.py:68-83 | while the guard holds, the route grows by the nearest admissible node (the converse of ExtendCloses) |
| NearestNeighbor.ExtendUnfold | vrpHeuristic.py:78-83 | a found node is unvisited, marking it counts one more visited node, and the route continues from it |
| NearestNeighbor.CountVisitedBound | vrpHeuristic.py:62 | `np.sum(visited)` is at most n, with equality iff every node is visited |
| NearestNeighbor.CountVisitedMark | vrpHeuristic.py:82 | marking an unvisited node raises the count by one |
| NearestNeighbor.NextRouteProgress | vrpHeuristic.py:62-85 | if every demand fits an empty vehicle, each pass of the outer loop visits at least one more node, so the loop ends |
| NearestNeighbor.NextRouteShape | vrpHeuristic.py:63-83 | one pass of the outer loop builds a route that starts with node 0, then visits only other nodes, with a load within capacity |
| NearestNeighbor.NextRouteServes | vrpHeuristic.py:63-83 | when node 0 is already visited, or nothing else is, and a node is left, the pass visits at least one node after 0 and leaves node 0 visited |
| NearestNeighbor.RoutesFromShape | vrpHeuristic.py:63-85 | every route starts with node 0, has no trailing depot and no other 0, and carries a load within capacity |
| NearestNeighbor.RoutesFromCover | vrpHeuristic.py:62-82 | from any state, the remaining routes serve every unvisited node other than 0 exactly once, and no other node |
| NearestNeighbor.RoutesFromServe | vrpHeuristic.py:62-85 | with two or more nodes, every route has a node after 0 |
| NearestNeighbor.NearestNeighborRoutesSpec | vrpHeuristic.py:54-87 | the result's routes start at 0, do not return to it and stay within capacity; together they contain every node 1..n-1 exactly once; with two or more nodes no route is `[0]` alone |
| NearestNeighbor.BuildRoute | vrpHeuristic.py:63-83 | one pass of the outer loop over the `visited` array returns the route and visited state of `NextRoute` |
| NearestNeighbor.NearestNeighbor | vrpHeuristic.py:54-87 | the method over the `visited` array returns exactly `NearestNeighborRoutes(dist, demands, capacity)` |
| NearestNeighbor.Passes | vrpHeuristic.py:62-85 | `k` passes of the outer loop keep the flags' length |
| NearestNeighbor.ExtendAvoids | vrpHeuristic.py:74 | a node whose demand exceeds the capacity is never appended while demands are not negative |
| NearestNeighbor.NeverFinishes | vrpHeuristic.py:62-85 | for non-negative demands, with two or more nodes and one demand above the capacity, the outer loop's condition still holds after every number of passes: the call never returns |
| NearestNeighbor.PassesAvoid | vrpHeuristic.py:62-85 | in that case some node stays unvisited through every pass |
| NearestNeighborExample.ExampleRoutes | vrpHeuristic.py:54-87 | on the example matrix and demands with capacity 10 the construction gives `[[0,3,1],[0,4],[0,2]]` |
| NearestNeighborExample.ExampleCosts | vrpHeuristic.py:40-52 | those routes cost 25, 10 and 15 |
| NearestNeighborExample.Example | vrpHeuristic.py:54-87 | the imperative construction on the example returns the same three routes |

## Left out

- Reading Excel sheets, the Overpass HTTP query, printing, matplotlib/folium plots and the top-level scripts: these are I/O.
- The OR-Tools and Gurobi models and random instance generation: these are foreign solvers and randomness.
- Euclidean and geodesic distances (`calculate_distance`, `calculate_distance_matrix`): they use floating point and library calls. The model takes integer costs as input: a function `N -> N -> int` for the savings merge, and an integer matrix for nearest neighbour.
- Floating-point costs in general. All costs and demands are unbounded integers, so numpy's float and fixed-width integer arithmetic is not modelled.
- `merge_routes` tests `route_i and route_j` by truthiness. Routes are never empty lists, so the model tests only whether the routes were found.
- NearestNeighbor.TotalDistance: requires every node to be an index of the matrix. numpy's negative indices (counting from the end) and the `IndexError` of an out-of-range node are not modelled.
- NearestNeighbor.NearestNeighbor: requires `Terminates`: at most one node, or every demand fits an empty vehicle. This condition is sufficient for the loop to end. It is also necessary only for non-negative demands, where `NeverFinishes` shows the call never returns otherwise; a call that never returns cannot be the result of a method. With a negative demand the source can return although `Terminates` is false (demands `[0, -5, 12]`, capacity 10, any 3-by-3 matrix, gives `[[0, 1, 2]]`), and the model does not cover such inputs.
- NearestNeighbor.NearestNeighbor: requires every row of the matrix to have at least as many columns as there are rows, and at least as many demands as nodes. The source reads exactly those entries, so it needs the same to avoid an `IndexError`. A ragged array that has a short row it never reads is not modelled.
- The savings merge is modelled as written. A textbook Clarke–Wright merge only joins routes at their depot-adjacent ends. This code has no such check, so `route_i[:-1] + route_j[1:]` is spliced wherever `i` and `j` occur. It also raises no error for a short fleet or an unreachable customer. The model follows the code.
- On the example instance with capacity 10, nearest neighbour builds three routes: [0,3,1], [0,4] and [0,2] (`NearestNeighborExample.ExampleRoutes`). After the first route, node 4's demand fills a vehicle on its own, and so does node 2's.
- The folder copy of `CVRP` uses coordinate tuples as nodes, distance and demand dictionaries, and the example with unit demands and capacity 4. The generic node type covers these. Its data comes from a map query and is not reproduced.
