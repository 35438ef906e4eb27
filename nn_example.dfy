/**
 * The nearest-neighbour construction on the cost matrix and demands of the
 * `VRPBeispiel.py` instance with capacity 10, pass by pass. It builds three
 * routes: [0, 3, 1], [0, 4] and [0, 2].
 */
module NearestNeighborExample {
  import opened Wrappers
  import opened NearestNeighbor
  import opened CvrpExample

  const None5: seq<bool> := [false, false, false, false, false]
  const Start1: seq<bool> := [true, false, false, false, false]
  const Second1: seq<bool> := [true, false, false, true, false]
  const After1: seq<bool> := [true, true, false, true, false]
  const After2: seq<bool> := [true, true, false, true, true]
  const All5: seq<bool> := [true, true, true, true, true]

  /** A step of the inner loop appends the node the scan found. */
  lemma Step(visited: seq<bool>, route: seq<nat>, load: int, v: nat)
    requires |visited| == 5 && route != [] && route[|route| - 1] < 5 && load <= 10
    requires ScanUpTo(Matrix[route[|route| - 1]], visited, DemandList, load, 10, 5) == Some(v)
    ensures Instance(Matrix, DemandList)
    ensures Extend(Matrix, DemandList, 10, visited, route, load)
      == Extend(Matrix, DemandList, 10, visited[v := true], route + [v], load + DemandList[v])
  {
    ExtendUnfold(Matrix, DemandList, 10, visited, route, load, v);
  }

  /** The inner loop stops when the scan finds nothing. */
  lemma Stop(visited: seq<bool>, route: seq<nat>, load: int)
    requires |visited| == 5 && route != [] && route[|route| - 1] < 5
    requires ScanUpTo(Matrix[route[|route| - 1]], visited, DemandList, load, 10, 5) == None
    ensures Instance(Matrix, DemandList)
    ensures Extend(Matrix, DemandList, 10, visited, route, load) == (route, visited)
  {
  }

  lemma FirstPass()
    ensures Instance(Matrix, DemandList)
    ensures NextRoute(Matrix, DemandList, 10, None5) == ([0, 3, 1], After1)
  {
    assert None5[0 := true] == Start1 && Start1[3 := true] == Second1 && Second1[1 := true] == After1;
    assert [0] + [3] == [0, 3] && [0, 3] + [1] == [0, 3, 1];
    FirstScans();
    Step(Start1, [0], 0, 3);
    Step(Second1, [0, 3], 5, 1);
    Stop(After1, [0, 3, 1], 10);
  }

  /** The three scans of the first pass: nodes 3 and 1 are nearest, then nothing fits. */
  lemma FirstScans()
    ensures ScanUpTo(Matrix[0], Start1, DemandList, 0, 10, 5) == Some(3)
    ensures ScanUpTo(Matrix[3], Second1, DemandList, 5, 10, 5) == Some(1)
    ensures ScanUpTo(Matrix[1], After1, DemandList, 10, 10, 5) == None
  {
    assert ScanUpTo(Matrix[0], Start1, DemandList, 0, 10, 5) == Some(3);
    assert ScanUpTo(Matrix[3], Second1, DemandList, 5, 10, 5) == Some(1);
  }


  lemma SecondPass()
    ensures Instance(Matrix, DemandList)
    ensures NextRoute(Matrix, DemandList, 10, After1) == ([0, 4], After2)
  {
    assert After1[0 := true] == After1 && After1[4 := true] == After2 && [0] + [4] == [0, 4];
    assert ScanUpTo(Matrix[0], After1, DemandList, 0, 10, 5) == Some(4);
    Step(After1, [0], 0, 4);
    assert ScanUpTo(Matrix[4], After2, DemandList, 10, 10, 5) == None;
    Stop(After2, [0, 4], 10);
  }

  lemma ThirdPass()
    ensures Instance(Matrix, DemandList)
    ensures NextRoute(Matrix, DemandList, 10, After2) == ([0, 2], All5)
  {
    assert After2[0 := true] == After2 && After2[2 := true] == All5 && [0] + [2] == [0, 2];
    assert ScanUpTo(Matrix[0], After2, DemandList, 0, 10, 5) == Some(2);
    Step(After2, [0], 0, 2);
    assert ScanUpTo(Matrix[2], All5, DemandList, 10, 10, 5) == None;
    Stop(All5, [0, 2], 10);
  }

  lemma LastRoute()
    ensures Instance(Matrix, DemandList) && Terminates(Matrix, DemandList, 10)
    ensures RoutesFrom(Matrix, DemandList, 10, After2) == [[0, 2]]
  {
    assert CountVisited(After2) == 4 && CountVisited(All5) == 5;
    ThirdPass();
    assert RoutesFrom(Matrix, DemandList, 10, All5) == [];
  }

  lemma LastTwoRoutes()
    ensures Instance(Matrix, DemandList) && Terminates(Matrix, DemandList, 10)
    ensures RoutesFrom(Matrix, DemandList, 10, After1) == [[0, 4], [0, 2]]
  {
    assert CountVisited(After1) == 3;
    SecondPass();
    LastRoute();
  }

  /**
   * On the example, the construction returns [[0, 3, 1], [0, 4], [0, 2]]:
   * three routes, because nodes 2 and 4 each fill a vehicle.
   */
  lemma ExampleRoutes()
    ensures IsCostMatrix(Matrix) && |DemandList| >= |Matrix| && Terminates(Matrix, DemandList, 10)
    ensures NearestNeighborRoutes(Matrix, DemandList, 10) == [[0, 3, 1], [0, 4], [0, 2]]
  {
    assert seq(5, _ => false) == None5;
    assert CountVisited(None5) == 0;
    FirstPass();
    LastTwoRoutes();
  }

  /** The costs of the three routes: 25, 10 and 15. */
  lemma ExampleCosts()
    ensures IsCostMatrix(Matrix)
    ensures RouteCost(Matrix, [0, 3, 1]) == 25 && RouteCost(Matrix, [0, 4]) == 10 && RouteCost(Matrix, [0, 2]) == 15
  {
    assert [0, 3, 1][..2] == [0, 3];
  }

  /** The imperative construction on the example gives the same three routes. */
  method Example() returns (routes: seq<seq<nat>>)
    ensures routes == [[0, 3, 1], [0, 4], [0, 2]]
  {
    ExampleRoutes();
    routes := NearestNeighbor.NearestNeighbor(Matrix, DemandList, 10);
  }
}
