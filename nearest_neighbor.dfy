/**
 * The nearest-neighbour construction `nearest_neighbor` and the route cost
 * `calculate_total_distance`. Nodes are indices 0 .. n-1 of an n-by-n cost
 * matrix; node 0 is where every route starts. Routes do not return to 0.
 */
module NearestNeighbor {
  import opened Wrappers
  import Savings

  // ---------------------------------------------------------------------
  // Cost matrix and route cost
  // ---------------------------------------------------------------------

  /**
   * A cost matrix, as the numpy array `dist_matrix`: n rows, one per node,
   * each with at least n columns. Only the first n columns are ever read, so
   * a matrix wider than it is tall is allowed, as it is in the source.
   */
  predicate IsCostMatrix(dist: seq<seq<int>>)
  {
    forall r :: 0 <= r < |dist| ==> |dist[r]| >= |dist|
  }

  /** Every node of the route is an index of the matrix. */
  predicate NodesIn(route: seq<nat>, n: nat)
  {
    forall k :: 0 <= k < |route| ==> route[k] < n
  }

  /** The cost of driving the route: the sum of dist[route[k]][route[k + 1]] over consecutive nodes. */
  function RouteCost(dist: seq<seq<int>>, route: seq<nat>): int
    requires IsCostMatrix(dist) && NodesIn(route, |dist|)
  {
    if |route| < 2 then 0
    else RouteCost(dist, route[..|route| - 1]) + dist[route[|route| - 2]][route[|route| - 1]]
  }

  /** Routes of fewer than two nodes cost nothing; appending a node adds the leg from the last node to it. */
  lemma RouteCostAppend(dist: seq<seq<int>>, route: seq<nat>, x: nat)
    requires IsCostMatrix(dist) && NodesIn(route, |dist|) && x < |dist|
    ensures NodesIn(route + [x], |dist|)
    ensures |route| < 2 ==> RouteCost(dist, route) == 0
    ensures route != [] ==> RouteCost(dist, route + [x]) == RouteCost(dist, route) + dist[route[|route| - 1]][x]
  {
    NodesInSnoc(route, x, |dist|);
    if route != [] {
      var r := route + [x];
      assert r[|r| - 2] == route[|route| - 1] && r[|r| - 1] == x;
      assert RouteCost(dist, r) == RouteCost(dist, r[..|r| - 1]) + dist[r[|r| - 2]][r[|r| - 1]];
    }
  }

  /** Appending a node of the matrix keeps every node in range, and the old route is the prefix. */
  lemma NodesInSnoc(route: seq<nat>, x: nat, n: nat)
    requires NodesIn(route, n) && x < n
    ensures NodesIn(route + [x], n) && (route + [x])[..|route|] == route
  {
    var r := route + [x];
    assert forall k :: 0 <= k < |route| ==> r[k] == route[k];
    assert r[|route|] == x;
  }

  /** Driving a then b costs both parts plus the leg that joins them. */
  lemma {:induction false} RouteCostConcat(dist: seq<seq<int>>, a: seq<nat>, b: seq<nat>)
    requires IsCostMatrix(dist) && NodesIn(a, |dist|) && NodesIn(b, |dist|) && a != [] && b != []
    ensures NodesIn(a + b, |dist|)
    ensures RouteCost(dist, a + b) == RouteCost(dist, a) + dist[a[|a| - 1]][b[0]] + RouteCost(dist, b)
  {
    var front, x := b[..|b| - 1], b[|b| - 1];
    assert b == front + [x];
    assert a + b == (a + front) + [x];
    if front == [] {
      RouteCostAppend(dist, a, x);
    } else {
      RouteCostConcat(dist, a, front);
      RouteCostAppend(dist, a + front, x);
      RouteCostAppend(dist, front, x);
    }
  }

  /** `calculate_total_distance`: sums the legs of the route in a loop. */
  method TotalDistance(route: seq<nat>, dist: seq<seq<int>>) returns (total: int)
    requires IsCostMatrix(dist) && NodesIn(route, |dist|)
    ensures total == RouteCost(dist, route)
  {
    total := 0;
    var numPoints := |route|;
    var i := 0;
    while i < numPoints - 1
      invariant numPoints == 0 ==> i == 0 && total == 0
      invariant numPoints > 0 ==> i < numPoints && total == RouteCost(dist, route[..i + 1])
    {
      var currentNode := route[i];
      var nextNode := route[i + 1];
      RouteCostAppend(dist, route[..i + 1], nextNode);
      assert route[..i + 2] == route[..i + 1] + [nextNode];
      total := total + dist[currentNode][nextNode];
      i := i + 1;
    }
    if numPoints > 0 {
      assert route[..i + 1] == route;
    }
  }

  // ---------------------------------------------------------------------
  // The visited flags
  // ---------------------------------------------------------------------

  /** `np.sum(visited)`: the number of visited nodes. */
  function CountVisited(visited: seq<bool>): nat
  {
    if visited == [] then 0 else (if visited[0] then 1 else 0) + CountVisited(visited[1..])
  }

  lemma {:induction false} CountVisitedBound(visited: seq<bool>)
    ensures CountVisited(visited) <= |visited|
    ensures CountVisited(visited) == |visited| <==> forall u :: 0 <= u < |visited| ==> visited[u]
  {
    if visited != [] {
      CountVisitedBound(visited[1..]);
      if CountVisited(visited) == |visited| {
        forall u | 0 <= u < |visited| ensures visited[u] {
          if u > 0 { assert visited[u] == visited[1..][u - 1]; }
        }
      }
      if forall u :: 0 <= u < |visited| ==> visited[u] {
        assert forall u :: 0 <= u < |visited[1..]| ==> visited[1..][u] by {
          forall u | 0 <= u < |visited[1..]| ensures visited[1..][u] {
            assert visited[1..][u] == visited[u + 1];
          }
        }
      }
    }
  }

  /** Marking an unvisited node counts one more visited node. */
  lemma {:induction false} CountVisitedMark(visited: seq<bool>, v: nat)
    requires v < |visited| && !visited[v]
    ensures CountVisited(visited[v := true]) == CountVisited(visited) + 1
  {
    if v == 0 {
      assert visited[v := true][1..] == visited[1..];
    } else {
      assert visited[v := true][1..] == visited[1..][v - 1 := true];
      CountVisitedMark(visited[1..], v - 1);
    }
  }

  // ---------------------------------------------------------------------
  // The scan for the nearest node
  // ---------------------------------------------------------------------

  /** Node v may be appended: it is unvisited and its demand fits the remaining capacity. */
  predicate Admissible(visited: seq<bool>, demands: seq<int>, load: int, capacity: int, v: nat)
  {
    v < |visited| && v < |demands| && !visited[v] && demands[v] + load <= capacity
  }

  /**
   * The scan over the nodes below k in ascending order: an admissible node
   * replaces the current choice only at a strictly smaller distance.
   */
  function ScanUpTo(row: seq<int>, visited: seq<bool>, demands: seq<int>, load: int, capacity: int, k: nat): (r: Option<nat>)
    requires k <= |row|
    ensures r.Some? ==> r.value < k && Admissible(visited, demands, load, capacity, r.value)
  {
    if k == 0 then None
    else
      var best := ScanUpTo(row, visited, demands, load, capacity, k - 1);
      if Admissible(visited, demands, load, capacity, k - 1) && (best.None? || row[k - 1] < row[best.value]) then Some(k - 1)
      else best
  }

  /** v is admissible, no admissible node is closer, and no admissible node of smaller index is as close. */
  predicate IsNearest(row: seq<int>, visited: seq<bool>, demands: seq<int>, load: int, capacity: int, k: nat, v: nat)
    requires k <= |row|
  {
    && v < k
    && Admissible(visited, demands, load, capacity, v)
    && forall u :: 0 <= u < k && Admissible(visited, demands, load, capacity, u) ==> row[v] < row[u] || (row[v] == row[u] && v <= u)
  }

  /**
   * The scan finds nothing exactly when no node below k is admissible;
   * otherwise it finds the nearest admissible node, ties going to the
   * smallest index.
   */
  lemma {:induction false} NearestSpec(row: seq<int>, visited: seq<bool>, demands: seq<int>, load: int, capacity: int, k: nat)
    requires k <= |row|
    ensures ScanUpTo(row, visited, demands, load, capacity, k).None?
      <==> forall u :: 0 <= u < k ==> !Admissible(visited, demands, load, capacity, u)
    ensures ScanUpTo(row, visited, demands, load, capacity, k).Some? ==>
      IsNearest(row, visited, demands, load, capacity, k, ScanUpTo(row, visited, demands, load, capacity, k).value)
  {
    if k > 0 {
      NearestSpec(row, visited, demands, load, capacity, k - 1);
    }
  }

  /** There is only one nearest node. */
  lemma NearestUnique(row: seq<int>, visited: seq<bool>, demands: seq<int>, load: int, capacity: int, k: nat, v: nat, w: nat)
    requires k <= |row|
    requires IsNearest(row, visited, demands, load, capacity, k, v)
    requires IsNearest(row, visited, demands, load, capacity, k, w)
    ensures v == w
  {
  }

  // ---------------------------------------------------------------------
  // One route: the inner loop
  // ---------------------------------------------------------------------

  /** The arguments every step of the construction needs: a cost matrix, a demand per node, at least one node. */
  predicate Instance(dist: seq<seq<int>>, demands: seq<int>)
  {
    IsCostMatrix(dist) && |demands| >= |dist| && |dist| > 0
  }

  /**
   * The inner loop: while the guard `load + demands[0] <= capacity` holds
   * and some node is admissible, append the nearest one, mark it visited
   * and add its demand. Returns the route and the visited flags at the end.
   */
  function Extend(dist: seq<seq<int>>, demands: seq<int>, capacity: int, visited: seq<bool>, route: seq<nat>, load: int): (r: (seq<nat>, seq<bool>))
    requires Instance(dist, demands) && |visited| == |dist|
    requires route != [] && route[|route| - 1] < |dist|
    ensures |r.1| == |visited| && |r.0| >= |route| && r.0[..|route|] == route
    decreases |visited| - CountVisited(visited)
  {
    if load + demands[0] > capacity then (route, visited)
    else
      var nearest := ScanUpTo(dist[route[|route| - 1]], visited, demands, load, capacity, |visited|);
      if nearest.None? then (route, visited)
      else
        var v := nearest.value;
        CountVisitedMark(visited, v);
        CountVisitedBound(visited[v := true]);
        Extend(dist, demands, capacity, visited[v := true], route + [v], load + demands[v])
  }

  /**
   * The sum of the demands of the nodes. `Routes.Demand` sums a total demand
   * function over nodes of any type; here demands are a list indexed by node,
   * as the numpy array is, so the sum carries the index bounds instead.
   */
  function Load(demands: seq<int>, nodes: seq<nat>): int
    requires forall k :: 0 <= k < |nodes| ==> nodes[k] < |demands|
  {
    if nodes == [] then 0 else demands[nodes[0]] + Load(demands, nodes[1..])
  }

  /** Concatenation is associative. */
  lemma Associative<T>(a: seq<T>, b: seq<T>, c: seq<T>)
    ensures a + (b + c) == (a + b) + c
  {
  }

  /**
   * One step of the inner loop's bookkeeping: marking v and then the nodes
   * `rest` amounts to marking the nodes `[v] + rest`, which are distinct and
   * were unvisited.
   */
  lemma MarkStep(visited: seq<bool>, v: nat, rest: seq<nat>, flags: seq<bool>)
    requires v < |visited| && !visited[v]
    requires forall k :: 0 <= k < |rest| ==> rest[k] < |visited| && !visited[v := true][rest[k]]
    requires Savings.Distinct(rest)
    requires |flags| == |visited|
    requires forall u :: 0 <= u < |visited| ==> (flags[u] <==> visited[v := true][u] || u in rest)
    ensures forall k :: 0 <= k < |[v] + rest| ==> ([v] + rest)[k] < |visited| && !visited[([v] + rest)[k]]
    ensures Savings.Distinct([v] + rest)
    ensures forall u :: 0 <= u < |visited| ==> (flags[u] <==> visited[u] || u in [v] + rest)
  {
    var added := [v] + rest;
    forall k | 0 <= k < |added| ensures added[k] < |visited| && !visited[added[k]] {
      if k > 0 { assert added[k] == rest[k - 1]; }
    }
    forall k, m | 0 <= k < m < |added| ensures added[k] != added[m] {
      assert added[m] == rest[m - 1];
      if k > 0 { assert added[k] == rest[k - 1]; }
    }
  }

  /**
   * The inner loop only appends: the nodes it adds were unvisited, each is
   * added once, and exactly they become visited.
   */
  lemma {:induction false} ExtendFrame(dist: seq<seq<int>>, demands: seq<int>, capacity: int, visited: seq<bool>, route: seq<nat>, load: int)
    returns (added: seq<nat>)
    requires Instance(dist, demands) && |visited| == |dist|
    requires route != [] && route[|route| - 1] < |dist|
    ensures Extend(dist, demands, capacity, visited, route, load).0 == route + added
    ensures forall k :: 0 <= k < |added| ==> added[k] < |visited| && !visited[added[k]]
    ensures Savings.Distinct(added)
    ensures forall u :: 0 <= u < |visited| ==>
      (Extend(dist, demands, capacity, visited, route, load).1[u] <==> visited[u] || u in added)
    decreases |visited| - CountVisited(visited)
  {
    if load + demands[0] > capacity {
      added := [];
    } else {
      var nearest := ScanUpTo(dist[route[|route| - 1]], visited, demands, load, capacity, |visited|);
      if nearest.None? {
        added := [];
      } else {
        var v := nearest.value;
        ExtendUnfold(dist, demands, capacity, visited, route, load, v);
        var rest := ExtendFrame(dist, demands, capacity, visited[v := true], route + [v], load + demands[v]);
        MarkStep(visited, v, rest, Extend(dist, demands, capacity, visited[v := true], route + [v], load + demands[v]).1);
        added := [v] + rest;
        Associative(route, [v], rest);
      }
    }
  }

  /**
   * The state in which the inner loop stops: the guard on node 0 fails at
   * this load, or no node is admissible.
   */
  predicate Closed(visited: seq<bool>, demands: seq<int>, load: int, capacity: int)
    requires |demands| > 0
  {
    load + demands[0] > capacity || forall u :: 0 <= u < |visited| ==> !Admissible(visited, demands, load, capacity, u)
  }

  /** The load of the nodes the inner loop adds stays within capacity. */
  lemma {:induction false} ExtendLoad(dist: seq<seq<int>>, demands: seq<int>, capacity: int, visited: seq<bool>, route: seq<nat>, load: int)
    returns (added: seq<nat>)
    requires Instance(dist, demands) && |visited| == |dist|
    requires route != [] && route[|route| - 1] < |dist|
    ensures Extend(dist, demands, capacity, visited, route, load).0 == route + added
    ensures forall k :: 0 <= k < |added| ==> added[k] < |demands|
    ensures added != [] ==> load + Load(demands, added) <= capacity
    decreases |visited| - CountVisited(visited)
  {
    if load + demands[0] > capacity {
      added := [];
    } else {
      var nearest := ScanUpTo(dist[route[|route| - 1]], visited, demands, load, capacity, |visited|);
      if nearest.None? {
        added := [];
      } else {
        var v := nearest.value;
        CountVisitedMark(visited, v);
        CountVisitedBound(visited[v := true]);
        var rest := ExtendLoad(dist, demands, capacity, visited[v := true], route + [v], load + demands[v]);
        added := [v] + rest;
        assert added[1..] == rest;
        Associative(route, [v], rest);
      }
    }
  }

  /** The inner loop ends in a closed state at the load of the nodes it added. */
  lemma {:induction false} ExtendCloses(dist: seq<seq<int>>, demands: seq<int>, capacity: int, visited: seq<bool>, route: seq<nat>, load: int)
    returns (added: seq<nat>)
    requires Instance(dist, demands) && |visited| == |dist|
    requires route != [] && route[|route| - 1] < |dist|
    ensures Extend(dist, demands, capacity, visited, route, load).0 == route + added
    ensures forall k :: 0 <= k < |added| ==> added[k] < |demands|
    ensures Closed(Extend(dist, demands, capacity, visited, route, load).1, demands, load + Load(demands, added), capacity)
    decreases |visited| - CountVisited(visited)
  {
    if load + demands[0] > capacity {
      added := [];
    } else {
      var nearest := ScanUpTo(dist[route[|route| - 1]], visited, demands, load, capacity, |visited|);
      if nearest.None? {
        added := [];
        NearestSpec(dist[route[|route| - 1]], visited, demands, load, capacity, |visited|);
      } else {
        var v := nearest.value;
        CountVisitedMark(visited, v);
        CountVisitedBound(visited[v := true]);
        var rest := ExtendCloses(dist, demands, capacity, visited[v := true], route + [v], load + demands[v]);
        added := [v] + rest;
        assert added[1..] == rest;
        Associative(route, [v], rest);
        assert load + Load(demands, added) == (load + demands[v]) + Load(demands, rest);
      }
    }
  }

  /**
   * One step of the inner loop: while the guard holds, the route grows by
   * the nearest admissible node; when no node is admissible it is closed.
   */
  lemma ExtendStep(dist: seq<seq<int>>, demands: seq<int>, capacity: int, visited: seq<bool>, route: seq<nat>, load: int, v: nat)
    requires Instance(dist, demands) && |visited| == |dist|
    requires route != [] && route[|route| - 1] < |dist|
    requires load + demands[0] <= capacity
    requires IsNearest(dist[route[|route| - 1]], visited, demands, load, capacity, |visited|, v)
    ensures Extend(dist, demands, capacity, visited, route, load)
      == Extend(dist, demands, capacity, visited[v := true], route + [v], load + demands[v])
  {
    var row := dist[route[|route| - 1]];
    NearestSpec(row, visited, demands, load, capacity, |visited|);
    NearestUnique(row, visited, demands, load, capacity, |visited|, v, ScanUpTo(row, visited, demands, load, capacity, |visited|).value);
  }

  // ---------------------------------------------------------------------
  // All routes: the outer loop
  // ---------------------------------------------------------------------

  /**
   * A condition under which the outer loop ends: at most one node, or every
   * demand (node 0's included, because of the guard) fits an empty vehicle.
   * It is sufficient; it is also necessary only when demands are not
   * negative (`NeverFinishes`). A negative demand can make room for a demand
   * above the capacity, and the loop may then end although this is false.
   */
  predicate Terminates(dist: seq<seq<int>>, demands: seq<int>, capacity: int)
    requires |demands| >= |dist|
  {
    |dist| <= 1 || forall v :: 0 <= v < |dist| ==> demands[v] <= capacity
  }

  /** One pass of the outer loop: mark node 0 visited and build one route from it. */
  function NextRoute(dist: seq<seq<int>>, demands: seq<int>, capacity: int, visited: seq<bool>): (seq<nat>, seq<bool>)
    requires Instance(dist, demands) && |visited| == |dist|
  {
    Extend(dist, demands, capacity, visited[0 := true], [0], 0)
  }

  /** Visiting more nodes never lowers the count. */
  lemma {:induction false} CountVisitedMono(a: seq<bool>, b: seq<bool>)
    requires |a| == |b| && forall u :: 0 <= u < |a| && a[u] ==> b[u]
    ensures CountVisited(a) <= CountVisited(b)
  {
    if a != [] {
      assert forall u :: 0 <= u < |a[1..]| && a[1..][u] ==> b[1..][u] by {
        forall u | 0 <= u < |a[1..]| && a[1..][u] ensures b[1..][u] {
          assert a[1..][u] == a[u + 1] && b[1..][u] == b[u + 1];
        }
      }
      CountVisitedMono(a[1..], b[1..]);
    }
  }

  /** A pass of the outer loop visits at least one more node while some node is unvisited. */
  lemma NextRouteProgress(dist: seq<seq<int>>, demands: seq<int>, capacity: int, visited: seq<bool>)
    requires Instance(dist, demands) && |visited| == |dist| && Terminates(dist, demands, capacity)
    requires CountVisited(visited) < |visited|
    ensures |NextRoute(dist, demands, capacity, visited).1| == |visited|
    ensures CountVisited(visited) < CountVisited(NextRoute(dist, demands, capacity, visited).1) <= |visited|
  {
    var start := visited[0 := true];
    var next := NextRoute(dist, demands, capacity, visited);
    CountVisitedBound(next.1);
    if !visited[0] {
      CountVisitedMark(visited, 0);
      var added := ExtendFrame(dist, demands, capacity, start, [0], 0);
      CountVisitedMono(start, next.1);
    } else {
      assert start == visited;
      CountVisitedBound(visited);
      var u :| 0 <= u < |visited| && !visited[u];
      assert Admissible(start, demands, 0, capacity, u);
      var row := dist[0];
      NearestSpec(row, start, demands, 0, capacity, |start|);
      var v := ScanUpTo(row, start, demands, 0, capacity, |start|).value;
      CountVisitedMark(start, v);
      CountVisitedBound(start[v := true]);
      assert demands[0] <= capacity && [0] + [v] == [0, v];
      assert next == Extend(dist, demands, capacity, start[v := true], [0, v], demands[v]);
      var added := ExtendFrame(dist, demands, capacity, start[v := true], [0, v], demands[v]);
      CountVisitedMono(start[v := true], next.1);
    }
  }

  /** The routes the outer loop appends from this visited state on, in order. */
  function RoutesFrom(dist: seq<seq<int>>, demands: seq<int>, capacity: int, visited: seq<bool>): seq<seq<nat>>
    requires Instance(dist, demands) && |visited| == |dist| && Terminates(dist, demands, capacity)
    decreases |visited| - CountVisited(visited)
  {
    if CountVisited(visited) >= |visited| then []
    else
      var next := NextRoute(dist, demands, capacity, visited);
      NextRouteProgress(dist, demands, capacity, visited);
      [next.0] + RoutesFrom(dist, demands, capacity, next.1)
  }

  /** `nearest_neighbor`: the routes built from the all-unvisited state; none without nodes. */
  function NearestNeighborRoutes(dist: seq<seq<int>>, demands: seq<int>, capacity: int): seq<seq<nat>>
    requires IsCostMatrix(dist) && |demands| >= |dist| && Terminates(dist, demands, capacity)
  {
    if |dist| == 0 then [] else RoutesFrom(dist, demands, capacity, seq(|dist|, _ => false))
  }

  /** The nodes each route adds after its leading 0, route after route. */
  function Tails(routes: seq<seq<nat>>): seq<nat>
  {
    if routes == [] then [] else (if routes[0] == [] then [] else routes[0][1..]) + Tails(routes[1..])
  }

  /** A route as the construction builds it: node 0 first, then other nodes of the matrix. */
  predicate StartsAtDepot(route: seq<nat>, n: nat)
  {
    |route| >= 1 && route[0] == 0 && forall m :: 1 <= m < |route| ==> 0 < route[m] < n
  }

  /** The nodes the route serves after its first have demands, and their sum is within capacity. */
  predicate WithinCapacity(route: seq<nat>, demands: seq<int>, capacity: int)
  {
    && (forall m :: 0 <= m < |route| ==> route[m] < |demands|)
    && (|route| >= 2 ==> Load(demands, route[1..]) <= capacity)
  }

  /** One route of the outer loop starts at node 0, then visits other nodes within the capacity. */
  lemma NextRouteShape(dist: seq<seq<int>>, demands: seq<int>, capacity: int, visited: seq<bool>)
    requires Instance(dist, demands) && |visited| == |dist|
    ensures StartsAtDepot(NextRoute(dist, demands, capacity, visited).0, |dist|)
    ensures WithinCapacity(NextRoute(dist, demands, capacity, visited).0, demands, capacity)
  {
    var next := NextRoute(dist, demands, capacity, visited);
    var start := visited[0 := true];
    var added := ExtendFrame(dist, demands, capacity, start, [0], 0);
    var added' := ExtendLoad(dist, demands, capacity, start, [0], 0);
    assert added' == added;
    assert next.0[1..] == added;
    assert forall m :: 1 <= m < |next.0| ==> next.0[m] == added[m - 1];
  }

  /**
   * When node 0 is visited already, or nothing else is, and some node is
   * left, the next route visits at least one node after 0 and node 0 ends
   * visited.
   */
  lemma NextRouteServes(dist: seq<seq<int>>, demands: seq<int>, capacity: int, visited: seq<bool>)
    requires Instance(dist, demands) && |visited| == |dist| && Terminates(dist, demands, capacity)
    requires |visited| >= 2 && CountVisited(visited) < |visited|
    requires visited[0] || forall u :: 0 < u < |visited| ==> !visited[u]
    ensures |NextRoute(dist, demands, capacity, visited).0| >= 2
    ensures |NextRoute(dist, demands, capacity, visited).1| == |visited| && NextRoute(dist, demands, capacity, visited).1[0]
  {
    var next := NextRoute(dist, demands, capacity, visited);
    var start := visited[0 := true];
    var u: nat;
    if visited[0] {
      CountVisitedBound(visited);
      u :| 0 <= u < |visited| && !visited[u];
    } else {
      u := 1;
    }
    assert Admissible(start, demands, 0, capacity, u);
    var row := dist[0];
    NearestSpec(row, start, demands, 0, capacity, |start|);
    var v := ScanUpTo(row, start, demands, 0, capacity, |start|).value;
    CountVisitedMark(start, v);
    CountVisitedBound(start[v := true]);
    assert demands[0] <= capacity && [0] + [v] == [0, v];
    assert next == Extend(dist, demands, capacity, start[v := true], [0, v], demands[v]);
    var added := ExtendFrame(dist, demands, capacity, start[v := true], [0, v], demands[v]);
  }

  /**
   * Every route starts at node 0 and never comes back to it, and the demand
   * of the nodes it serves stays within capacity.
   */
  lemma {:induction false} RoutesFromShape(dist: seq<seq<int>>, demands: seq<int>, capacity: int, visited: seq<bool>)
    requires Instance(dist, demands) && |visited| == |dist| && Terminates(dist, demands, capacity)
    ensures forall k :: 0 <= k < |RoutesFrom(dist, demands, capacity, visited)| ==>
      StartsAtDepot(RoutesFrom(dist, demands, capacity, visited)[k], |dist|)
    ensures forall k :: 0 <= k < |RoutesFrom(dist, demands, capacity, visited)| ==>
      WithinCapacity(RoutesFrom(dist, demands, capacity, visited)[k], demands, capacity)
    decreases |visited| - CountVisited(visited)
  {
    var rs := RoutesFrom(dist, demands, capacity, visited);
    if CountVisited(visited) < |visited| {
      var next := NextRoute(dist, demands, capacity, visited);
      NextRouteProgress(dist, demands, capacity, visited);
      NextRouteShape(dist, demands, capacity, visited);
      RoutesFromShape(dist, demands, capacity, next.1);
      assert rs == [next.0] + RoutesFrom(dist, demands, capacity, next.1);
      forall k | 1 <= k < |rs| ensures rs[k] == RoutesFrom(dist, demands, capacity, next.1)[k - 1] { }
    }
  }

  /** A pass's route is its leading 0 followed by the nodes the inner loop added. */
  lemma TailsStep(route: seq<nat>, rest: seq<seq<nat>>)
    requires route != []
    ensures Tails([route] + rest) == route[1..] + Tails(rest)
  {
    assert ([route] + rest)[1..] == rest;
  }

  /**
   * From a visited state on, the routes serve every unvisited node other
   * than 0 and nothing else, each exactly once.
   */
  lemma {:induction false} RoutesFromCover(dist: seq<seq<int>>, demands: seq<int>, capacity: int, visited: seq<bool>)
    requires Instance(dist, demands) && |visited| == |dist| && Terminates(dist, demands, capacity)
    ensures Savings.Distinct(Tails(RoutesFrom(dist, demands, capacity, visited)))
    ensures forall v: nat :: v in Tails(RoutesFrom(dist, demands, capacity, visited)) <==> 0 < v < |visited| && !visited[v]
    decreases |visited| - CountVisited(visited)
  {
    if CountVisited(visited) >= |visited| {
      CountVisitedBound(visited);
    } else {
      var next := NextRoute(dist, demands, capacity, visited);
      NextRouteProgress(dist, demands, capacity, visited);
      var start := visited[0 := true];
      var added := ExtendFrame(dist, demands, capacity, start, [0], 0);
      var rest := RoutesFrom(dist, demands, capacity, next.1);
      RoutesFromCover(dist, demands, capacity, next.1);
      TailsStep(next.0, rest);
      assert next.0[1..] == added;
      var tails := added + Tails(rest);
      assert Tails(RoutesFrom(dist, demands, capacity, visited)) == tails;
      forall v: nat ensures v in tails <==> 0 < v < |visited| && !visited[v] {
        if v in added {
          var k :| 0 <= k < |added| && added[k] == v;
        }
      }
      forall k, m | 0 <= k < m < |tails| ensures tails[k] != tails[m] {
        if k < |added| && m >= |added| {
          assert tails[m] in Tails(rest);
          assert next.1[added[k]];
        }
      }
    }
  }

  /**
   * With two or more nodes, a pass that starts with node 0 visited, or with
   * nothing visited, serves at least one node; so does every later pass.
   */
  lemma {:induction false} RoutesFromServe(dist: seq<seq<int>>, demands: seq<int>, capacity: int, visited: seq<bool>)
    requires Instance(dist, demands) && |visited| == |dist| && Terminates(dist, demands, capacity)
    requires |visited| >= 2 && (visited[0] || forall u :: 0 < u < |visited| ==> !visited[u])
    ensures forall k :: 0 <= k < |RoutesFrom(dist, demands, capacity, visited)| ==> |RoutesFrom(dist, demands, capacity, visited)[k]| >= 2
    decreases |visited| - CountVisited(visited)
  {
    var rs := RoutesFrom(dist, demands, capacity, visited);
    if CountVisited(visited) < |visited| {
      var next := NextRoute(dist, demands, capacity, visited);
      NextRouteProgress(dist, demands, capacity, visited);
      NextRouteServes(dist, demands, capacity, visited);
      RoutesFromServe(dist, demands, capacity, next.1);
      assert rs == [next.0] + RoutesFrom(dist, demands, capacity, next.1);
      forall k | 1 <= k < |rs| ensures rs[k] == RoutesFrom(dist, demands, capacity, next.1)[k - 1] { }
    }
  }


  /**
   * What `nearest_neighbor` returns: routes that start at node 0 and do not
   * come back to it, each within capacity, that together serve every other
   * node exactly once; with two or more nodes no route is empty.
   */
  lemma NearestNeighborRoutesSpec(dist: seq<seq<int>>, demands: seq<int>, capacity: int)
    requires IsCostMatrix(dist) && |demands| >= |dist| && Terminates(dist, demands, capacity)
    ensures forall k :: 0 <= k < |NearestNeighborRoutes(dist, demands, capacity)| ==>
      StartsAtDepot(NearestNeighborRoutes(dist, demands, capacity)[k], |dist|)
      && WithinCapacity(NearestNeighborRoutes(dist, demands, capacity)[k], demands, capacity)
    ensures Savings.Distinct(Tails(NearestNeighborRoutes(dist, demands, capacity)))
    ensures forall v: nat :: v in Tails(NearestNeighborRoutes(dist, demands, capacity)) <==> 0 < v < |dist|
    ensures |dist| >= 2 ==> forall k :: 0 <= k < |NearestNeighborRoutes(dist, demands, capacity)| ==>
      |NearestNeighborRoutes(dist, demands, capacity)[k]| >= 2
  {
    if |dist| > 0 {
      var none := seq(|dist|, _ => false);
      RoutesFromShape(dist, demands, capacity, none);
      RoutesFromCover(dist, demands, capacity, none);
      if |dist| >= 2 {
        RoutesFromServe(dist, demands, capacity, none);
      }
    }
  }

  /** The inner loop's step when the guard holds and the scan found v. */
  lemma ExtendUnfold(dist: seq<seq<int>>, demands: seq<int>, capacity: int, visited: seq<bool>, route: seq<nat>, load: int, v: nat)
    requires Instance(dist, demands) && |visited| == |dist|
    requires route != [] && route[|route| - 1] < |dist|
    requires load + demands[0] <= capacity
    requires ScanUpTo(dist[route[|route| - 1]], visited, demands, load, capacity, |visited|) == Some(v)
    ensures v < |visited| && !visited[v]
    ensures CountVisited(visited) < CountVisited(visited[v := true]) <= |visited|
    ensures Extend(dist, demands, capacity, visited, route, load)
      == Extend(dist, demands, capacity, visited[v := true], route + [v], load + demands[v])
  {
    CountVisitedMark(visited, v);
    CountVisitedBound(visited[v := true]);
  }

  /**
   * The scan for the nearest admissible node: an ascending pass over the
   * unvisited nodes in which a node replaces the current choice only at a
   * strictly smaller distance. An unset minimum stands for infinity.
   */
  method ScanNearest(row: seq<int>, visited: array<bool>, demands: seq<int>, load: int, capacity: int) returns (nearest: Option<nat>)
    requires visited.Length <= |row| && visited.Length <= |demands|
    ensures nearest == ScanUpTo(row, visited[..], demands, load, capacity, visited.Length)
  {
    nearest := None;
    var minDist: Option<int> := None;
    for neighbor := 0 to visited.Length
      invariant nearest == ScanUpTo(row, visited[..], demands, load, capacity, neighbor)
      invariant minDist == if nearest.None? then None else Some(row[nearest.value])
    {
      if !visited[neighbor] {
        if demands[neighbor] + load <= capacity && (minDist.None? || row[neighbor] < minDist.value) {
          nearest := Some(neighbor);
          minDist := Some(row[neighbor]);
        }
      }
    }
  }

  /**
   * One pass of the outer loop: start a route at node 0, mark it visited and
   * keep appending the nearest admissible node while the guard on node 0
   * holds.
   */
  method BuildRoute(dist: seq<seq<int>>, demands: seq<int>, capacity: int, visited: array<bool>) returns (route: seq<nat>)
    requires Instance(dist, demands) && visited.Length == |dist|
    modifies visited
    ensures (route, visited[..]) == NextRoute(dist, demands, capacity, old(visited[..]))
  {
    var numPoints := visited.Length;
    var currentNode := 0;
    var currentCapacity := 0;
    route := [currentNode];
    visited[currentNode] := true;
    ghost var expected := NextRoute(dist, demands, capacity, old(visited[..]));
    while currentCapacity + demands[currentNode] <= capacity
      invariant currentNode == 0
      invariant route != [] && route[|route| - 1] < numPoints
      invariant Extend(dist, demands, capacity, visited[..], route, currentCapacity) == expected
      decreases numPoints - CountVisited(visited[..])
    {
      var current := route[|route| - 1];
      var nearest := ScanNearest(dist[current], visited, demands, currentCapacity, capacity);
      if nearest.None? {
        break;
      }
      var v := nearest.value;
      ghost var seen := visited[..];
      ExtendUnfold(dist, demands, capacity, seen, route, currentCapacity, v);
      route := route + [v];
      visited[v] := true;
      currentCapacity := currentCapacity + demands[v];
      assert visited[..] == seen[v := true];
    }
  }

  /** `nearest_neighbor`: passes of the outer loop until every node is visited. */
  method NearestNeighbor(dist: seq<seq<int>>, demands: seq<int>, capacity: int) returns (routes: seq<seq<nat>>)
    requires IsCostMatrix(dist) && |demands| >= |dist| && Terminates(dist, demands, capacity)
    ensures routes == NearestNeighborRoutes(dist, demands, capacity)
  {
    var numPoints := |dist|;
    var visited := new bool[numPoints](_ => false);
    routes := [];
    if numPoints > 0 {
      assert visited[..] == seq(numPoints, _ => false);
    }
    while CountVisited(visited[..]) < numPoints
      invariant visited.Length == numPoints
      invariant numPoints > 0 ==> routes + RoutesFrom(dist, demands, capacity, visited[..]) == NearestNeighborRoutes(dist, demands, capacity)
      invariant numPoints == 0 ==> routes == []
      decreases numPoints - CountVisited(visited[..])
    {
      ghost var before := visited[..];
      NextRouteProgress(dist, demands, capacity, before);
      var route := BuildRoute(dist, demands, capacity, visited);
      assert RoutesFrom(dist, demands, capacity, before) == [route] + RoutesFrom(dist, demands, capacity, visited[..]);
      Associative(routes, [route], RoutesFrom(dist, demands, capacity, visited[..]));
      routes := routes + [route];
    }
    if numPoints > 0 {
      assert RoutesFrom(dist, demands, capacity, visited[..]) == [];
    }
  }

  // ---------------------------------------------------------------------
  // When the outer loop does not end
  // ---------------------------------------------------------------------

  /** The visited flags after k passes of the outer loop. */
  function Passes(dist: seq<seq<int>>, demands: seq<int>, capacity: int, visited: seq<bool>, k: nat): (r: seq<bool>)
    requires Instance(dist, demands) && |visited| == |dist|
    ensures |r| == |visited|
    decreases k
  {
    if k == 0 then visited else Passes(dist, demands, capacity, NextRoute(dist, demands, capacity, visited).1, k - 1)
  }

  /** Node u, whose demand exceeds the capacity, is never admissible while the load is not negative. */
  lemma {:induction false} ExtendAvoids(dist: seq<seq<int>>, demands: seq<int>, capacity: int, visited: seq<bool>, route: seq<nat>, load: int, u: nat)
    requires Instance(dist, demands) && |visited| == |dist|
    requires route != [] && route[|route| - 1] < |dist|
    requires forall w :: 0 <= w < |dist| ==> demands[w] >= 0
    requires load >= 0 && u < |visited| && !visited[u] && demands[u] > capacity
    ensures !Extend(dist, demands, capacity, visited, route, load).1[u]
    decreases |visited| - CountVisited(visited)
  {
    if load + demands[0] <= capacity {
      var nearest := ScanUpTo(dist[route[|route| - 1]], visited, demands, load, capacity, |visited|);
      if nearest.Some? {
        var v := nearest.value;
        CountVisitedMark(visited, v);
        CountVisitedBound(visited[v := true]);
        ExtendAvoids(dist, demands, capacity, visited[v := true], route + [v], load + demands[v], u);
      }
    }
  }

  /**
   * With two or more nodes and demands that are not negative, one demand
   * above the capacity keeps the outer loop's condition true after any
   * number of passes: the source then never returns.
   */
  lemma NeverFinishes(dist: seq<seq<int>>, demands: seq<int>, capacity: int, u: nat, k: nat)
    requires Instance(dist, demands) && |dist| >= 2
    requires forall w :: 0 <= w < |dist| ==> demands[w] >= 0
    requires u < |dist| && demands[u] > capacity
    ensures CountVisited(Passes(dist, demands, capacity, seq(|dist|, _ => false), k)) < |dist|
  {
    var w: nat := if u == 0 then 1 else u;
    var none := seq(|dist|, _ => false);
    PassesAvoid(dist, demands, capacity, none, u, w, k);
    CountVisitedBound(Passes(dist, demands, capacity, none, k));
  }

  /** Node w stays unvisited through every pass (w is u itself, or node 1 when u is node 0). */
  lemma {:induction false} PassesAvoid(dist: seq<seq<int>>, demands: seq<int>, capacity: int, visited: seq<bool>, u: nat, w: nat, k: nat)
    requires Instance(dist, demands) && |visited| == |dist| && |dist| >= 2
    requires forall w :: 0 <= w < |dist| ==> demands[w] >= 0
    requires u < |dist| && demands[u] > capacity
    requires w == (if u == 0 then 1 else u) && !visited[w]
    ensures !Passes(dist, demands, capacity, visited, k)[w]
    decreases k
  {
    if k > 0 {
      var start := visited[0 := true];
      var next := NextRoute(dist, demands, capacity, visited);
      if u == 0 {
        assert next == ([0], start);
      } else {
        ExtendAvoids(dist, demands, capacity, start, [0], 0, u);
      }
      PassesAvoid(dist, demands, capacity, next.1, u, w, k - 1);
    }
  }
}
