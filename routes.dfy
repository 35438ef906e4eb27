/**
 * The route list of the savings heuristic and one pass of `CVRP.merge_routes`
 * over the savings list, as functions of the list of routes. A route is the
 * list of its nodes, from the depot back to the depot.
 */
module Routes {
  import opened Wrappers
  import opened Savings

  // ---------------------------------------------------------------------
  // Python slices and sums
  // ---------------------------------------------------------------------

  /** `r[:-1]` */
  function DropLast<N>(r: seq<N>): seq<N>
  {
    if |r| == 0 then [] else r[..|r| - 1]
  }

  /** `r[1:]` */
  function DropFirst<N>(r: seq<N>): seq<N>
  {
    if |r| == 0 then [] else r[1..]
  }

  /** `r[1:-1]`: the customers a route serves. */
  function Interior<N>(r: seq<N>): seq<N>
  {
    if |r| < 2 then [] else r[1..|r| - 1]
  }

  /** The summed demand of the nodes. */
  function Demand<N>(nodes: seq<N>, demands: N -> int): int
  {
    if nodes == [] then 0 else demands(nodes[0]) + Demand(nodes[1..], demands)
  }

  lemma {:induction false} DemandConcat<N>(a: seq<N>, b: seq<N>, demands: N -> int)
    ensures Demand(a + b, demands) == Demand(a, demands) + Demand(b, demands)
  {
    if a != [] {
      assert (a + b)[0] == a[0];
      assert (a + b)[1..] == a[1..] + b;
      DemandConcat(a[1..], b, demands);
    } else {
      assert a + b == b;
    }
  }

  /** With every node of demand 1 the demand of a list of nodes is its length. */
  lemma {:induction false} DemandOfUnits<N>(nodes: seq<N>, demands: N -> int)
    requires forall x :: x in nodes ==> demands(x) == 1
    ensures Demand(nodes, demands) == |nodes|
  {
    if nodes != [] {
      assert nodes[0] in nodes;
      DemandOfUnits(nodes[1..], demands);
    }
  }

  // ---------------------------------------------------------------------
  // Route lists
  // ---------------------------------------------------------------------

  /** A route from the depot back to the depot with at least one stop between. */
  predicate DepotTour<N(==)>(r: seq<N>, depot: N)
  {
    |r| >= 3 && r[0] == depot && r[|r| - 1] == depot
  }

  /** An initial route [depot, c, depot] may exceed the capacity; a merged route may not. */
  predicate Fits<N>(r: seq<N>, demands: N -> int, capacity: int)
  {
    |r| == 3 || Demand(Interior(r), demands) <= capacity
  }

  /** What the merge pass keeps true of every route. */
  predicate RoutesInvariant<N(==)>(rs: seq<seq<N>>, depot: N, demands: N -> int, capacity: int)
  {
    forall r :: r in rs ==> DepotTour(r, depot) && Fits(r, demands, capacity)
  }

  /** The nodes the routes serve, with multiplicity: all their interiors together. */
  function Customers<N(==)>(rs: seq<seq<N>>): multiset<N>
  {
    if rs == [] then multiset{} else multiset(Interior(rs[0])) + Customers(rs[1..])
  }

  lemma {:induction false} CustomersConcat<N>(a: seq<seq<N>>, b: seq<seq<N>>)
    ensures Customers(a + b) == Customers(a) + Customers(b)
  {
    if a == [] {
      assert a + b == b;
    } else {
      assert (a + b)[0] == a[0];
      assert (a + b)[1..] == a[1..] + b;
      CustomersConcat(a[1..], b);
    }
  }

  lemma CustomersAppend<N>(rs: seq<seq<N>>, r: seq<N>)
    ensures Customers(rs + [r]) == Customers(rs) + multiset(Interior(r))
  {
    CustomersConcat(rs, [r]);
    assert [r][1..] == [];
  }

  /** The interiors of two different routes are both part of the customers. */
  lemma CustomersOfTwo<N>(rs: seq<seq<N>>, a: nat, b: nat)
    requires a < |rs| && b < |rs| && a != b
    ensures multiset(Interior(rs[a])) + multiset(Interior(rs[b])) <= Customers(rs)
  {
    if a < b {
      CustomersOfOrdered(rs, a, b);
    } else {
      CustomersOfOrdered(rs, b, a);
    }
  }

  /** For a < b, rs[a] lies in the part before b and rs[b] heads the part from b on. */
  lemma CustomersOfOrdered<N>(rs: seq<seq<N>>, a: nat, b: nat)
    requires a < b < |rs|
    ensures multiset(Interior(rs[a])) + multiset(Interior(rs[b])) <= Customers(rs)
  {
    var front, back := rs[..b], rs[b..];
    assert rs == front + back;
    CustomersConcat(front, back);
    assert front[a] == rs[a];
    CustomersOfOne(front, a);
    assert back[0] == rs[b];
    assert Customers(back) == multiset(Interior(rs[b])) + Customers(back[1..]);
  }

  lemma {:induction false} CustomersOfOne<N>(rs: seq<seq<N>>, a: nat)
    requires a < |rs|
    ensures multiset(Interior(rs[a])) <= Customers(rs)
  {
    if a > 0 {
      CustomersOfOne(rs[1..], a - 1);
    }
  }

  lemma {:induction false} CustomerHasRoute<N>(rs: seq<seq<N>>, x: N) returns (k: nat)
    requires x in Customers(rs)
    ensures k < |rs| && x in Interior(rs[k])
  {
    if x in Interior(rs[0]) {
      k := 0;
    } else {
      k := CustomerHasRoute(rs[1..], x);
      k := k + 1;
    }
  }

  // ---------------------------------------------------------------------
  // The initial routes
  // ---------------------------------------------------------------------

  /** `[[depot, customer, depot] for customer in customers]` */
  function InitialRoutes<N>(depot: N, customers: seq<N>): seq<seq<N>>
  {
    seq(|customers|, k requires 0 <= k < |customers| => [depot, customers[k], depot])
  }

  /**
   * There is one route [depot, c, depot] per customer, in customer order;
   * they satisfy the merge invariant and serve every customer once per
   * occurrence in the customer list.
   */
  lemma {:induction false} InitialRoutesValid<N>(depot: N, customers: seq<N>, demands: N -> int, capacity: int)
    ensures var rs := InitialRoutes(depot, customers);
      && |rs| == |customers|
      && (forall k :: 0 <= k < |rs| ==> rs[k] == [depot, customers[k], depot])
      && RoutesInvariant(rs, depot, demands, capacity)
      && Customers(rs) == multiset(customers)
  {
    var rs := InitialRoutes(depot, customers);
    if customers != [] {
      var front := customers[..|customers| - 1];
      var c := customers[|customers| - 1];
      InitialRoutesValid(depot, front, demands, capacity);
      assert rs == InitialRoutes(depot, front) + [[depot, c, depot]];
      CustomersAppend(InitialRoutes(depot, front), [depot, c, depot]);
      assert Interior([depot, c, depot]) == [c];
      assert customers == front + [c];
    }
  }

  // ---------------------------------------------------------------------
  // Looking up and removing routes
  // ---------------------------------------------------------------------

  /** `next((route for route in routes if x in route), None)`: the first route visiting x. */
  function FindRoute<N(==)>(rs: seq<seq<N>>, x: N): Option<seq<N>>
  {
    if rs == [] then None
    else if x in rs[0] then Some(rs[0])
    else FindRoute(rs[1..], x)
  }

  /**
   * The lookup finds nothing exactly when no route visits x; otherwise it
   * is the route at the first position that visits x.
   */
  lemma {:induction false} FindRouteSpec<N>(rs: seq<seq<N>>, x: N) returns (k: nat)
    ensures FindRoute(rs, x).None? <==> forall m :: 0 <= m < |rs| ==> x !in rs[m]
    ensures FindRoute(rs, x).Some? ==>
      k < |rs| && FindRoute(rs, x) == Some(rs[k]) && x in rs[k] && forall m :: 0 <= m < k ==> x !in rs[m]
  {
    if rs == [] {
      k := 0;
    } else if x in rs[0] {
      k := 0;
    } else {
      var m := FindRouteSpec(rs[1..], x);
      k := m + 1;
      forall q | 0 <= q < |rs| ensures x in rs[q] <==> q > 0 && x in rs[1..][q - 1] {
      }
    }
  }

  /** A route found is one of the routes and visits x. */
  lemma {:induction false} FindRouteIn<N>(rs: seq<seq<N>>, x: N)
    ensures FindRoute(rs, x).Some? ==> FindRoute(rs, x).value in rs && x in FindRoute(rs, x).value
  {
    if rs != [] && x !in rs[0] {
      FindRouteIn(rs[1..], x);
    }
  }

  /** The position of the first element equal to r. */
  function FirstIndex<T(==)>(rs: seq<T>, r: T): (k: nat)
    requires r in rs
    ensures k < |rs| && rs[k] == r
    ensures forall m :: 0 <= m < k ==> rs[m] != r
  {
    if rs[0] == r then 0 else 1 + FirstIndex(rs[1..], r)
  }

  /** `routes.remove(r)`: drops the first element equal to r and keeps the order of the rest. */
  function RemoveFirst<T(==)>(rs: seq<T>, r: T): seq<T>
    requires r in rs
  {
    var k := FirstIndex(rs, r);
    rs[..k] + rs[k + 1..]
  }

  /** Removing takes out one copy of r and nothing else. */
  lemma RemoveFirstMultiset<T>(rs: seq<T>, r: T)
    requires r in rs
    ensures |RemoveFirst(rs, r)| == |rs| - 1
    ensures multiset(RemoveFirst(rs, r)) == multiset(rs) - multiset{r}
  {
    var k := FirstIndex(rs, r);
    assert rs == rs[..k] + [r] + rs[k + 1..];
  }

  lemma RemoveFirstKeeps<T>(rs: seq<T>, r: T, x: T)
    requires r in rs && x in rs && x != r
    ensures x in RemoveFirst(rs, r)
  {
    RemoveFirstMultiset(rs, r);
    assert x in multiset(rs);
    assert x in multiset(RemoveFirst(rs, r));
  }

  lemma RemoveFirstFrom<T>(rs: seq<T>, r: T, x: T)
    requires r in rs && x in RemoveFirst(rs, r)
    ensures x in rs
  {
    RemoveFirstMultiset(rs, r);
    assert x in multiset(RemoveFirst(rs, r));
  }

  lemma CustomersRemove<N>(rs: seq<seq<N>>, r: seq<N>)
    requires r in rs
    ensures Customers(RemoveFirst(rs, r)) + multiset(Interior(r)) == Customers(rs)
  {
    var k := FirstIndex(rs, r);
    assert rs == rs[..k] + ([r] + rs[k + 1..]);
    CustomersConcat(rs[..k], [r] + rs[k + 1..]);
    CustomersConcat(rs[..k], rs[k + 1..]);
    assert ([r] + rs[k + 1..])[1..] == rs[k + 1..];
  }

  // ---------------------------------------------------------------------
  // One merge
  // ---------------------------------------------------------------------

  /** `route_i[:-1] + route_j[1:]` */
  function Spliced<N>(ri: seq<N>, rj: seq<N>): seq<N>
  {
    DropLast(ri) + DropFirst(rj)
  }

  /**
   * The merge condition: i and j lie on two different routes whose
   * interiors together fit the capacity. Where i and j sit inside their
   * routes plays no part.
   */
  predicate Accepts<N(==)>(rs: seq<seq<N>>, i: N, j: N, demands: N -> int, capacity: int)
  {
    var ri, rj := FindRoute(rs, i), FindRoute(rs, j);
    ri.Some? && rj.Some? && ri.value != rj.value
    && Demand(Interior(ri.value) + Interior(rj.value), demands) <= capacity
  }

  /** The body of the loop of `merge_routes` for the pair (i, j). */
  function MergePair<N(==)>(rs: seq<seq<N>>, i: N, j: N, demands: N -> int, capacity: int): seq<seq<N>>
  {
    if Accepts(rs, i, j, demands, capacity) then
      var ri, rj := FindRoute(rs, i).value, FindRoute(rs, j).value;
      FindRouteIn(rs, i);
      FindRouteIn(rs, j);
      RemoveFirstKeeps(rs, ri, rj);
      RemoveFirst(RemoveFirst(rs, ri), rj) + [Spliced(ri, rj)]
    else
      rs
  }

  /**
   * An accepted merge removes the two routes of i and j and appends their
   * splice at the end, so the number of routes drops by one; a rejected
   * pair leaves the routes as they are.
   */
  lemma MergePairEffect<N>(rs: seq<seq<N>>, i: N, j: N, demands: N -> int, capacity: int)
    ensures var r := MergePair(rs, i, j, demands, capacity);
      if Accepts(rs, i, j, demands, capacity) then
        var ri, rj := FindRoute(rs, i).value, FindRoute(rs, j).value;
        && |r| == |rs| - 1
        && r[|r| - 1] == Spliced(ri, rj)
        && multiset(r) == multiset(rs) - multiset{ri} - multiset{rj} + multiset{Spliced(ri, rj)}
      else
        r == rs
  {
    if Accepts(rs, i, j, demands, capacity) {
      var ri, rj := FindRoute(rs, i).value, FindRoute(rs, j).value;
      FindRouteIn(rs, i);
      FindRouteIn(rs, j);
      RemoveFirstKeeps(rs, ri, rj);
      RemoveFirstMultiset(rs, ri);
      RemoveFirstMultiset(RemoveFirst(rs, ri), rj);
    }
  }

  /** Splicing two depot tours gives a depot tour that serves both interiors in turn. */
  lemma SplicedTour<N>(ri: seq<N>, rj: seq<N>, depot: N)
    requires DepotTour(ri, depot) && DepotTour(rj, depot)
    ensures DepotTour(Spliced(ri, rj), depot)
    ensures |Spliced(ri, rj)| == |ri| + |rj| - 2
    ensures Interior(Spliced(ri, rj)) == Interior(ri) + Interior(rj)
  {
    var s := Spliced(ri, rj);
    assert s == ri[..|ri| - 1] + rj[1..];
    var mid := ri[1..|ri| - 1] + rj[1..|rj| - 1];
    assert |s[1..|s| - 1]| == |mid|;
    forall k | 0 <= k < |mid| ensures s[1..|s| - 1][k] == mid[k] {
      if k < |ri| - 2 {
        assert s[k + 1] == ri[k + 1];
      } else {
        assert s[k + 1] == rj[k + 1 - (|ri| - 1) + 1];
      }
    }
  }

  /** A merge keeps the invariant and the customers served. */
  lemma MergePairPreserves<N>(rs: seq<seq<N>>, i: N, j: N, depot: N, demands: N -> int, capacity: int)
    requires RoutesInvariant(rs, depot, demands, capacity)
    ensures RoutesInvariant(MergePair(rs, i, j, demands, capacity), depot, demands, capacity)
    ensures Customers(MergePair(rs, i, j, demands, capacity)) == Customers(rs)
  {
    if Accepts(rs, i, j, demands, capacity) {
      var ri, rj := FindRoute(rs, i).value, FindRoute(rs, j).value;
      FindRouteIn(rs, i);
      FindRouteIn(rs, j);
      RemoveFirstKeeps(rs, ri, rj);
      SplicedTour(ri, rj, depot);
      AcceptedKeepsInvariant(rs, ri, rj, depot, demands, capacity);
      AcceptedKeepsCustomers(rs, ri, rj);
    }
  }

  lemma AcceptedKeepsInvariant<N>(rs: seq<seq<N>>, ri: seq<N>, rj: seq<N>, depot: N, demands: N -> int, capacity: int)
    requires RoutesInvariant(rs, depot, demands, capacity)
    requires ri in rs && rj in RemoveFirst(rs, ri)
    requires DepotTour(Spliced(ri, rj), depot) && Fits(Spliced(ri, rj), demands, capacity)
    ensures RoutesInvariant(RemoveFirst(RemoveFirst(rs, ri), rj) + [Spliced(ri, rj)], depot, demands, capacity)
  {
    var rest1 := RemoveFirst(rs, ri);
    var rest2 := RemoveFirst(rest1, rj);
    forall r | r in rest2 + [Spliced(ri, rj)] ensures DepotTour(r, depot) && Fits(r, demands, capacity) {
      if r in rest2 {
        RemoveFirstFrom(rest1, rj, r);
        RemoveFirstFrom(rs, ri, r);
      }
    }
  }

  lemma AcceptedKeepsCustomers<N>(rs: seq<seq<N>>, ri: seq<N>, rj: seq<N>)
    requires ri in rs && rj in RemoveFirst(rs, ri)
    requires Interior(Spliced(ri, rj)) == Interior(ri) + Interior(rj)
    ensures Customers(RemoveFirst(RemoveFirst(rs, ri), rj) + [Spliced(ri, rj)]) == Customers(rs)
  {
    var rest1 := RemoveFirst(rs, ri);
    var rest2 := RemoveFirst(rest1, rj);
    CustomersRemove(rs, ri);
    CustomersRemove(rest1, rj);
    CustomersAppend(rest2, Spliced(ri, rj));
  }

  // ---------------------------------------------------------------------
  // The merge pass
  // ---------------------------------------------------------------------

  /** The routes after the loop of `merge_routes` has handled the given savings in turn. */
  function MergeAll<N(==)>(rs: seq<seq<N>>, savings: seq<Saving<N>>, demands: N -> int, capacity: int): seq<seq<N>>
  {
    if savings == [] then rs
    else
      var last := savings[|savings| - 1];
      MergePair(MergeAll(rs, savings[..|savings| - 1], demands, capacity), last.i, last.j, demands, capacity)
  }

  /** The number of savings entries of the pass that caused a merge. */
  function Merges<N(==)>(rs: seq<seq<N>>, savings: seq<Saving<N>>, demands: N -> int, capacity: int): nat
  {
    if savings == [] then 0
    else
      var front, last := savings[..|savings| - 1], savings[|savings| - 1];
      Merges(rs, front, demands, capacity)
      + (if Accepts(MergeAll(rs, front, demands, capacity), last.i, last.j, demands, capacity) then 1 else 0)
  }

  /** The pass keeps the invariant and the customers served. */
  lemma {:induction false} MergeAllPreserves<N>(rs: seq<seq<N>>, savings: seq<Saving<N>>, depot: N, demands: N -> int, capacity: int)
    requires RoutesInvariant(rs, depot, demands, capacity)
    ensures RoutesInvariant(MergeAll(rs, savings, demands, capacity), depot, demands, capacity)
    ensures Customers(MergeAll(rs, savings, demands, capacity)) == Customers(rs)
  {
    if savings != [] {
      var front, last := savings[..|savings| - 1], savings[|savings| - 1];
      MergeAllPreserves(rs, front, depot, demands, capacity);
      MergePairPreserves(MergeAll(rs, front, demands, capacity), last.i, last.j, depot, demands, capacity);
    }
  }

  /** Every merge of the pass removes exactly one route. */
  lemma {:induction false} MergeAllCount<N>(rs: seq<seq<N>>, savings: seq<Saving<N>>, demands: N -> int, capacity: int)
    ensures |MergeAll(rs, savings, demands, capacity)| + Merges(rs, savings, demands, capacity) == |rs|
  {
    if savings != [] {
      var front, last := savings[..|savings| - 1], savings[|savings| - 1];
      MergeAllCount(rs, front, demands, capacity);
      MergePairEffect(MergeAll(rs, front, demands, capacity), last.i, last.j, demands, capacity);
    }
  }

  // ---------------------------------------------------------------------
  // Consequences of the invariant
  // ---------------------------------------------------------------------

  /**
   * For distinct customers other than the depot, every customer lies on
   * exactly one route, and the lookup of `merge_routes` finds that route.
   */
  lemma OnExactlyOneRoute<N>(rs: seq<seq<N>>, depot: N, demands: N -> int, capacity: int, customers: seq<N>, c: N)
    requires RoutesInvariant(rs, depot, demands, capacity)
    requires Customers(rs) == multiset(customers)
    requires Distinct(customers) && depot !in customers
    requires c in customers
    ensures exists k :: 0 <= k < |rs| && c in rs[k] && FindRoute(rs, c) == Some(rs[k])
    ensures forall a, b :: 0 <= a < |rs| && 0 <= b < |rs| && c in rs[a] && c in rs[b] ==> a == b
  {
    assert c in multiset(customers);
    var k := CustomerHasRoute(rs, c);
    assert rs[k] in rs;
    OnRouteMeansInterior(rs[k], depot, c);
    forall a, b | 0 <= a < |rs| && 0 <= b < |rs| && c in rs[a] && c in rs[b] ensures a == b {
      if a != b {
        assert rs[a] in rs && rs[b] in rs;
        OnRouteMeansInterior(rs[a], depot, c);
        OnRouteMeansInterior(rs[b], depot, c);
        DistinctCount(customers, c);
        TwiceServed(rs, a, b, c);
      }
    }
    var m := FindRouteSpec(rs, c);
    assert FindRoute(rs, c).Some? by {
      assert c in rs[k];
    }
    assert m == k;
  }

  lemma TwiceServed<N>(rs: seq<seq<N>>, a: nat, b: nat, c: N)
    requires a < |rs| && b < |rs| && a != b
    requires c in Interior(rs[a]) && c in Interior(rs[b])
    ensures Customers(rs)[c] >= 2
  {
    CustomersOfTwo(rs, a, b);
    assert multiset(Interior(rs[a]))[c] >= 1 && multiset(Interior(rs[b]))[c] >= 1;
  }

  lemma OnRouteMeansInterior<N>(r: seq<N>, depot: N, c: N)
    requires DepotTour(r, depot) && c != depot
    ensures c in r <==> c in Interior(r)
  {
    assert r == [r[0]] + Interior(r) + [r[|r| - 1]];
  }

  /**
   * With every customer of demand 1 and a capacity of at least 1, no route
   * serves more customers than the capacity.
   */
  lemma UnitDemandsBoundStops<N>(rs: seq<seq<N>>, depot: N, demands: N -> int, capacity: int, customers: seq<N>)
    requires RoutesInvariant(rs, depot, demands, capacity)
    requires Customers(rs) == multiset(customers)
    requires forall c :: c in customers ==> demands(c) == 1
    requires capacity >= 1
    ensures forall k :: 0 <= k < |rs| ==> |Interior(rs[k])| <= capacity
  {
    forall k | 0 <= k < |rs| ensures |Interior(rs[k])| <= capacity {
      assert rs[k] in rs;
      CustomersOfOne(rs, k);
      forall x | x in Interior(rs[k]) ensures demands(x) == 1 {
        assert x in multiset(Interior(rs[k]));
        assert x in multiset(customers);
      }
      DemandOfUnits(Interior(rs[k]), demands);
    }
  }

  // ---------------------------------------------------------------------
  // The fleet
  // ---------------------------------------------------------------------

  /** `routes[:k]`, with Python's reading of a negative bound as counted from the end. */
  function Fleet<T>(rs: seq<T>, k: int): (r: seq<T>)
    ensures r <= rs
    ensures k >= 0 ==> |r| == if k < |rs| then k else |rs|
    ensures k < 0 ==> |r| == if |rs| + k > 0 then |rs| + k else 0
  {
    if k >= 0 then (if k < |rs| then rs[..k] else rs)
    else if |rs| + k > 0 then rs[..|rs| + k]
    else []
  }
}
