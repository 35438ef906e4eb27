/**
 * The savings list of the Clarke-Wright heuristic (`CVRP.calculate_savings`):
 * every ordered pair (i, j) of distinct customers with the saving
 * d[depot][i] + d[depot][j] - d[i][j], ordered by non-increasing saving.
 *
 * The source fills a dictionary in two nested loops over the customers and
 * then sorts its items with a stable sort in reverse order. Here the loops'
 * output is `PairRows`, the dictionary's key order is `KeyOrder`, and the
 * stable descending sort is `SortDesc`.
 */
module Savings {

  /** One item of the savings dictionary: the key (i, j) and its saving. */
  datatype Saving<N> = Saving(i: N, j: N, value: int)

  /** The saving of serving j right after i instead of in two depot round trips. */
  function SavingValue<N>(depot: N, distances: N -> N -> int, i: N, j: N): int
  {
    distances(depot)(i) + distances(depot)(j) - distances(i)(j)
  }

  predicate Distinct<T(==)>(s: seq<T>)
  {
    forall a, b :: 0 <= a < b < |s| ==> s[a] != s[b]
  }

  lemma DistinctInit<T>(s: seq<T>)
    requires Distinct(s) && s != []
    ensures Distinct(s[..|s| - 1]) && s[|s| - 1] !in s[..|s| - 1]
  {
  }

  lemma DistinctSnoc<T>(t: seq<T>, y: T)
    requires Distinct(t) && y !in t
    ensures Distinct(t + [y])
  {
    var s := t + [y];
    forall a, b | 0 <= a < b < |s| ensures s[a] != s[b] {
      if b == |t| { assert s[a] in t; } else { assert s[a] == t[a] && s[b] == t[b]; }
    }
  }

  lemma {:induction false} DistinctCount<T>(s: seq<T>, x: T)
    requires Distinct(s)
    ensures multiset(s)[x] <= 1
  {
    if s != [] {
      var t := s[..|s| - 1];
      assert s == t + [s[|s| - 1]];
      DistinctInit(s);
      DistinctCount(t, x);
    }
  }

  // ---------------------------------------------------------------------
  // The keys in the order the nested loops produce them
  // ---------------------------------------------------------------------

  /** The keys (i, j), i != j, that the inner loop over `cs` produces for one i. */
  function PairRow<N(==)>(i: N, cs: seq<N>): seq<(N, N)>
  {
    if cs == [] then []
    else
      var j := cs[|cs| - 1];
      PairRow(i, cs[..|cs| - 1]) + (if j != i then [(i, j)] else [])
  }

  /** One row holds exactly the pairs (i, j) with j in cs and j != i. */
  lemma {:induction false} PairRowMembers<N>(i: N, cs: seq<N>)
    ensures forall p :: p in PairRow(i, cs) ==> p.0 == i && p.1 in cs && p.1 != i
    ensures forall j :: j in cs && j != i ==> (i, j) in PairRow(i, cs)
  {
    if cs != [] {
      var t, j := cs[..|cs| - 1], cs[|cs| - 1];
      assert cs == t + [j];
      PairRowMembers(i, t);
    }
  }

  /** The keys the two nested loops produce, the outer one running over `outer`. */
  function PairRows<N(==)>(outer: seq<N>, cs: seq<N>): seq<(N, N)>
  {
    if outer == [] then []
    else
      var i := outer[|outer| - 1];
      PairRows(outer[..|outer| - 1], cs) + PairRow(i, cs)
  }

  /** The nested loops produce exactly the pairs (i, j) of distinct nodes with i in outer and j in cs. */
  lemma {:induction false} PairRowsMembers<N>(outer: seq<N>, cs: seq<N>)
    ensures forall p :: p in PairRows(outer, cs) ==> p.0 in outer && p.1 in cs && p.0 != p.1
    ensures forall i, j :: i in outer && j in cs && i != j ==> (i, j) in PairRows(outer, cs)
  {
    if outer != [] {
      var t, i := outer[..|outer| - 1], outer[|outer| - 1];
      assert outer == t + [i];
      PairRowsMembers(t, cs);
      PairRowMembers(i, cs);
    }
  }

  lemma {:induction false} PairRowCount<N>(i: N, cs: seq<N>)
    ensures |PairRow(i, cs)| == |cs| - multiset(cs)[i]
  {
    if cs != [] {
      var t := cs[..|cs| - 1];
      assert cs == t + [cs[|cs| - 1]];
      PairRowCount(i, t);
    }
  }

  lemma {:induction false} PairRowDistinct<N>(i: N, cs: seq<N>)
    requires Distinct(cs)
    ensures Distinct(PairRow(i, cs))
  {
    if cs != [] {
      var t := cs[..|cs| - 1];
      var j := cs[|cs| - 1];
      assert cs == t + [j];
      assert Distinct(t);
      PairRowDistinct(i, t);
      PairRowMembers(i, t);
      assert (i, j) !in PairRow(i, t);
    }
  }

  lemma PairRowCountOfMember<N>(i: N, cs: seq<N>)
    requires Distinct(cs) && i in cs
    ensures |PairRow(i, cs)| == |cs| - 1
  {
    PairRowCount(i, cs);
    DistinctCount(cs, i);
    assert i in multiset(cs);
  }

  lemma {:induction false} PairRowsCount<N>(outer: seq<N>, cs: seq<N>)
    requires Distinct(cs)
    requires forall x :: x in outer ==> x in cs
    ensures |PairRows(outer, cs)| == |outer| * (|cs| - 1)
  {
    if outer != [] {
      var front, i := outer[..|outer| - 1], outer[|outer| - 1];
      assert outer == front + [i];
      PairRowsCount(front, cs);
      PairRowCountOfMember(i, cs);
      MulSucc(|front|, |cs| - 1);
    }
  }

  lemma MulSucc(a: int, m: int)
    ensures (a + 1) * m == a * m + m
  {
  }

  lemma {:induction false} PairRowsDistinct<N>(outer: seq<N>, cs: seq<N>)
    requires Distinct(outer) && Distinct(cs)
    ensures Distinct(PairRows(outer, cs))
  {
    if outer != [] {
      var t := outer[..|outer| - 1];
      var i := outer[|outer| - 1];
      assert outer == t + [i];
      assert Distinct(t);
      PairRowsDistinct(t, cs);
      PairRowDistinct(i, cs);
      PairRowsMembers(t, cs);
      PairRowMembers(i, cs);
      var front, row := PairRows(t, cs), PairRow(i, cs);
      forall a, b | 0 <= a < b < |front + row|
        ensures (front + row)[a] != (front + row)[b]
      {
        if a < |front| && b >= |front| {
          assert (front + row)[a] in front;
          assert (front + row)[b] in row;
        }
      }
    }
  }

  // ---------------------------------------------------------------------
  // The dictionary
  // ---------------------------------------------------------------------

  /** Assigning a key of a dictionary: a new key goes last, a known key keeps its place. */
  function InsertKey<K(==)>(keys: seq<K>, k: K): seq<K>
  {
    if k in keys then keys else keys + [k]
  }

  /** The key order of a dictionary after assigning the keys of `s` in turn. */
  function KeyOrder<K(==)>(s: seq<K>): seq<K>
  {
    if s == [] then []
    else InsertKey(KeyOrder(s[..|s| - 1]), s[|s| - 1])
  }

  /** The dictionary holds every assigned key exactly once. */
  lemma {:induction false} KeyOrderMembers<K>(s: seq<K>)
    ensures forall x :: x in KeyOrder(s) ==> x in s
    ensures forall x :: x in s ==> x in KeyOrder(s)
    ensures Distinct(KeyOrder(s))
  {
    if s != [] {
      var t, x := s[..|s| - 1], s[|s| - 1];
      assert s == t + [x];
      KeyOrderMembers(t);
      if x !in KeyOrder(t) {
        DistinctSnoc(KeyOrder(t), x);
      }
    }
  }

  /** Assigning to key x of the dictionary appends x to the key order unless x is there already. */
  lemma KeyOrderSnoc<K>(s: seq<K>, x: K)
    ensures KeyOrder(s + [x]) == InsertKey(KeyOrder(s), x)
  {
    assert (s + [x])[..|s|] == s;
  }

  /** One more inner step of the pair loop. */
  lemma PairRowStep<N>(i: N, cs: seq<N>, b: nat)
    requires b < |cs|
    ensures PairRow(i, cs[..b + 1]) == PairRow(i, cs[..b]) + (if cs[b] != i then [(i, cs[b])] else [])
  {
    assert cs[..b + 1][..b] == cs[..b];
  }

  /** One more inner step of the pair loop as seen in the key order of the dictionary. */
  lemma KeyOrderRowStep<N>(done: seq<(N, N)>, i: N, cs: seq<N>, b: nat)
    requires b < |cs|
    ensures KeyOrder(done + PairRow(i, cs[..b + 1]))
         == if cs[b] != i then InsertKey(KeyOrder(done + PairRow(i, cs[..b])), (i, cs[b]))
            else KeyOrder(done + PairRow(i, cs[..b]))
  {
    PairRowStep(i, cs, b);
    if cs[b] != i {
      assert done + PairRow(i, cs[..b + 1]) == done + PairRow(i, cs[..b]) + [(i, cs[b])];
      KeyOrderSnoc(done + PairRow(i, cs[..b]), (i, cs[b]));
    } else {
      assert done + PairRow(i, cs[..b + 1]) == done + PairRow(i, cs[..b]);
    }
  }

  /** One more outer step of the pair loop. */
  lemma PairRowsStep<N>(outer: seq<N>, cs: seq<N>, a: nat)
    requires a < |outer|
    ensures PairRows(outer[..a + 1], cs) == PairRows(outer[..a], cs) + PairRow(outer[a], cs)
  {
    assert outer[..a + 1][..a] == outer[..a];
  }

  lemma {:induction false} KeyOrderOfDistinct<K>(s: seq<K>)
    requires Distinct(s)
    ensures KeyOrder(s) == s
  {
    if s != [] {
      assert s == s[..|s| - 1] + [s[|s| - 1]];
      DistinctInit(s);
      KeyOrderOfDistinct(s[..|s| - 1]);
    }
  }

  /** The dictionary's items, in key order. */
  function Items<N>(depot: N, distances: N -> N -> int, keys: seq<(N, N)>): seq<Saving<N>>
  {
    seq(|keys|, k requires 0 <= k < |keys| =>
      Saving(keys[k].0, keys[k].1, SavingValue(depot, distances, keys[k].0, keys[k].1)))
  }

  /** The savings dictionary's items before sorting: insertion order, `i` outer, `j` inner. */
  function Generated<N(==)>(depot: N, customers: seq<N>, distances: N -> N -> int): seq<Saving<N>>
  {
    Items(depot, distances, KeyOrder(PairRows(customers, customers)))
  }

  // ---------------------------------------------------------------------
  // Stable sort by non-increasing saving
  // ---------------------------------------------------------------------

  predicate SortedDesc<N>(s: seq<Saving<N>>)
  {
    forall a, b :: 0 <= a < b < |s| ==> s[a].value >= s[b].value
  }

  /** The entries of `s` with saving `v`, in their order in `s`. */
  function WithValue<N>(s: seq<Saving<N>>, v: int): seq<Saving<N>>
  {
    if s == [] then []
    else (if s[0].value == v then [s[0]] else []) + WithValue(s[1..], v)
  }

  lemma {:induction false} WithValueMember<N>(s: seq<Saving<N>>, v: int, e: Saving<N>)
    ensures e in WithValue(s, v) <==> e in s && e.value == v
  {
    if s != [] {
      WithValueMember(s[1..], v, e);
      assert s == [s[0]] + s[1..];
    }
  }

  lemma WithValueCons<N>(e: Saving<N>, s: seq<Saving<N>>, v: int)
    ensures WithValue([e] + s, v) == (if e.value == v then [e] else []) + WithValue(s, v)
  {
    assert ([e] + s)[1..] == s;
  }

  lemma SortedCons<N>(e: Saving<N>, s: seq<Saving<N>>)
    requires SortedDesc(s)
    requires forall f :: f in s ==> f.value <= e.value
    ensures SortedDesc([e] + s)
  {
    var r := [e] + s;
    forall a, b | 0 <= a < b < |r| ensures r[a].value >= r[b].value {
      assert r[b] == s[b - 1];
      if a > 0 {
        assert r[a] == s[a - 1];
      } else {
        assert s[b - 1] in s;
      }
    }
  }

  /** Puts `x` behind every entry of larger saving and ahead of the others. */
  function Insert<N>(x: Saving<N>, s: seq<Saving<N>>): seq<Saving<N>>
  {
    if s == [] || s[0].value <= x.value then [x] + s
    else [s[0]] + Insert(x, s[1..])
  }

  /** Insert places x just before the first entry whose saving is not larger than x's. */
  lemma {:induction false} InsertPosition<N>(x: Saving<N>, s: seq<Saving<N>>, pos: nat)
    requires pos <= |s|
    requires forall k :: 0 <= k < pos ==> s[k].value > x.value
    requires pos == |s| || s[pos].value <= x.value
    ensures Insert(x, s) == s[..pos] + [x] + s[pos..]
  {
    if pos > 0 {
      InsertPosition(x, s[1..], pos - 1);
      assert s[..pos] == [s[0]] + s[1..][..pos - 1];
      assert s[pos..] == s[1..][pos - 1..];
    }
  }

  lemma {:induction false} InsertPermutes<N>(x: Saving<N>, s: seq<Saving<N>>)
    ensures multiset(Insert(x, s)) == multiset(s) + multiset{x}
  {
    if s != [] && s[0].value > x.value {
      InsertPermutes(x, s[1..]);
      assert s == [s[0]] + s[1..];
    }
  }

  lemma {:induction false} InsertSorted<N>(x: Saving<N>, s: seq<Saving<N>>)
    requires SortedDesc(s)
    ensures SortedDesc(Insert(x, s))
  {
    if s == [] || s[0].value <= x.value {
      SortedCons(x, s);
    } else {
      assert SortedDesc(s[1..]);
      InsertSorted(x, s[1..]);
      InsertPermutes(x, s[1..]);
      var t := Insert(x, s[1..]);
      forall f | f in t ensures f.value <= s[0].value {
        assert f in multiset(t);
        if f != x {
          assert f in s[1..];
        }
      }
      SortedCons(s[0], t);
    }
  }

  lemma InsertStableStep<N>(x: Saving<N>, s: seq<Saving<N>>, v: int)
    requires s != [] && s[0].value > x.value
    requires WithValue(Insert(x, s[1..]), v) == WithValue([x] + s[1..], v)
    ensures WithValue(Insert(x, s), v) == WithValue([x] + s, v)
  {
    var t := Insert(x, s[1..]);
    assert s == [s[0]] + s[1..];
    assert Insert(x, s) == [s[0]] + t;
    var w1 := WithValue(s[1..], v);
    WithValueCons(s[0], t, v);
    WithValueCons(x, s[1..], v);
    WithValueCons(x, s, v);
    WithValueCons(s[0], s[1..], v);
    if v == x.value {
      assert WithValue(t, v) == [x] + w1;
      assert WithValue(s, v) == w1;
    } else if v == s[0].value {
      assert WithValue(t, v) == w1;
      assert WithValue(s, v) == [s[0]] + w1;
    } else {
      assert WithValue(t, v) == w1;
      assert WithValue(s, v) == w1;
    }
  }

  /** Inserting keeps the order among entries of equal saving, `x` first. */
  lemma {:induction false} InsertStable<N>(x: Saving<N>, s: seq<Saving<N>>, v: int)
    ensures WithValue(Insert(x, s), v) == WithValue([x] + s, v)
  {
    if s != [] && s[0].value > x.value {
      InsertStable(x, s[1..], v);
      InsertStableStep(x, s, v);
    }
  }

  /** A stable sort by non-increasing saving, as `sorted(..., reverse=True)` performs it. */
  function SortDesc<N>(s: seq<Saving<N>>): seq<Saving<N>>
  {
    if s == [] then [] else Insert(s[0], SortDesc(s[1..]))
  }

  /**
   * The insertion sort yields a list sorted by non-increasing value that is
   * a permutation of its input and keeps entries of equal value in input
   * order, as Python's stable `sorted(..., reverse=True)` does.
   */
  lemma {:induction false} SortDescSpec<N>(s: seq<Saving<N>>)
    ensures SortedDesc(SortDesc(s))
    ensures multiset(SortDesc(s)) == multiset(s)
    ensures forall v :: WithValue(SortDesc(s), v) == WithValue(s, v)
  {
    if s != [] {
      var t := SortDesc(s[1..]);
      SortDescSpec(s[1..]);
      InsertSorted(s[0], t);
      InsertPermutes(s[0], t);
      assert s == [s[0]] + s[1..];
      forall v ensures WithValue(Insert(s[0], t), v) == WithValue(s, v) {
        InsertStable(s[0], t, v);
        WithValueCons(s[0], t, v);
        WithValueCons(s[0], s[1..], v);
      }
    }
  }

  /**
   * A stable sort by non-increasing saving is unique: two sorted lists that
   * agree on the entries of every saving, in order, are equal. So the
   * insertion sort above gives the list of any other stable sort.
   */
  lemma {:induction false} StableSortUnique<N>(t: seq<Saving<N>>, u: seq<Saving<N>>)
    requires SortedDesc(t) && SortedDesc(u)
    requires forall v :: WithValue(t, v) == WithValue(u, v)
    ensures t == u
  {
    if t == [] {
      if u != [] {
        WithValueMember(u, u[0].value, u[0]);
      }
    } else if u == [] {
      WithValueMember(t, t[0].value, t[0]);
    } else {
      HeadOfSameValues(t, u);
      forall w ensures WithValue(t[1..], w) == WithValue(u[1..], w) {
        TailOfSameValues(t, u, w);
      }
      assert SortedDesc(t[1..]) && SortedDesc(u[1..]);
      StableSortUnique(t[1..], u[1..]);
      assert t == [t[0]] + t[1..] && u == [u[0]] + u[1..];
    }
  }

  lemma SortedHeadIsLargest<N>(u: seq<Saving<N>>, e: Saving<N>)
    requires SortedDesc(u) && e in u
    ensures u[0].value >= e.value
  {
  }

  /** Two sorted lists that agree on the entries of every saving start alike. */
  lemma HeadOfSameValues<N>(t: seq<Saving<N>>, u: seq<Saving<N>>)
    requires t != [] && u != []
    requires SortedDesc(t) && SortedDesc(u)
    requires forall v :: WithValue(t, v) == WithValue(u, v)
    ensures t[0] == u[0]
  {
    var v, w := t[0].value, u[0].value;
    assert WithValue(t, v) == WithValue(u, v);
    assert WithValue(t, w) == WithValue(u, w);
    HeadAgreement(t, u, v, w);
  }

  lemma HeadAgreement<N>(t: seq<Saving<N>>, u: seq<Saving<N>>, v: int, w: int)
    requires t != [] && u != [] && t[0].value == v && u[0].value == w
    requires SortedDesc(t) && SortedDesc(u)
    requires WithValue(t, v) == WithValue(u, v)
    requires WithValue(t, w) == WithValue(u, w)
    ensures t[0] == u[0]
  {
    WithValueMember(t, v, t[0]);
    WithValueMember(u, v, t[0]);
    SortedHeadIsLargest(u, t[0]);
    WithValueMember(u, w, u[0]);
    WithValueMember(t, w, u[0]);
    SortedHeadIsLargest(t, u[0]);
    assert v == w;
    assert t == [t[0]] + t[1..] && u == [u[0]] + u[1..];
    WithValueCons(t[0], t[1..], v);
    WithValueCons(u[0], u[1..], v);
    assert WithValue(t, v)[0] == t[0];
  }

  lemma TailOfSameValues<N>(t: seq<Saving<N>>, u: seq<Saving<N>>, w: int)
    requires t != [] && u != [] && t[0] == u[0]
    requires WithValue(t, w) == WithValue(u, w)
    ensures WithValue(t[1..], w) == WithValue(u[1..], w)
  {
    var head := if t[0].value == w then [t[0]] else [];
    var a, b := WithValue(t[1..], w), WithValue(u[1..], w);
    assert WithValue(t, w) == head + a;
    assert WithValue(u, w) == head + b;
    assert (head + a)[|head|..] == a;
    assert (head + b)[|head|..] == b;
  }

  // ---------------------------------------------------------------------
  // The savings list
  // ---------------------------------------------------------------------

  /** What `calculate_savings` returns. */
  function SavingsList<N(==)>(depot: N, customers: seq<N>, distances: N -> N -> int): seq<Saving<N>>
  {
    SortDesc(Generated(depot, customers, distances))
  }

  /** A savings entry as the source computes it: distinct customers and their saving. */
  predicate IsSavingOf<N(==)>(e: Saving<N>, depot: N, customers: seq<N>, distances: N -> N -> int)
  {
    e.i in customers && e.j in customers && e.i != e.j
    && e.value == SavingValue(depot, distances, e.i, e.j)
  }

  lemma ItemsDistinct<N>(depot: N, distances: N -> N -> int, keys: seq<(N, N)>)
    requires Distinct(keys)
    ensures Distinct(Items(depot, distances, keys))
  {
    var g := Items(depot, distances, keys);
    forall a, b | 0 <= a < b < |g| ensures g[a] != g[b] {
      assert keys[a] != keys[b];
    }
  }

  lemma GeneratedMember<N>(depot: N, customers: seq<N>, distances: N -> N -> int, e: Saving<N>)
    ensures e in Generated(depot, customers, distances) <==> IsSavingOf(e, depot, customers, distances)
  {
    var keys := KeyOrder(PairRows(customers, customers));
    var g := Generated(depot, customers, distances);
    PairRowsMembers(customers, customers);
    KeyOrderMembers(PairRows(customers, customers));
    if IsSavingOf(e, depot, customers, distances) {
      assert (e.i, e.j) in PairRows(customers, customers);
      assert (e.i, e.j) in keys;
      var k :| 0 <= k < |keys| && keys[k] == (e.i, e.j);
      assert g[k] == e;
    }
    if e in g {
      var k :| 0 <= k < |g| && g[k] == e;
      assert keys[k] in keys;
    }
  }

  lemma TwoPositions<T>(r: seq<T>, a: nat, b: nat)
    requires a < b < |r| && r[a] == r[b]
    ensures multiset(r)[r[a]] >= 2
  {
    assert r == r[..b] + r[b..];
    assert r[a] in r[..b];
    assert multiset(r) == multiset(r[..b]) + multiset(r[b..]);
  }

  lemma DistinctPermutation<T>(g: seq<T>, r: seq<T>)
    requires Distinct(g) && multiset(g) == multiset(r)
    ensures Distinct(r)
  {
    forall a, b | 0 <= a < b < |r| ensures r[a] != r[b] {
      if r[a] == r[b] {
        DistinctCount(g, r[a]);
        TwoPositions(r, a, b);
      }
    }
  }

  /**
   * The savings list holds exactly the ordered pairs of distinct customers,
   * each once and with its saving; it is sorted by non-increasing saving;
   * entries of equal saving keep the order in which the loops generated them.
   */
  lemma SavingsListSpec<N>(depot: N, customers: seq<N>, distances: N -> N -> int)
    ensures var r := SavingsList(depot, customers, distances);
      && SortedDesc(r)
      && Distinct(r)
      && (forall e :: e in r <==> IsSavingOf(e, depot, customers, distances))
      && (forall v :: WithValue(r, v) == WithValue(Generated(depot, customers, distances), v))
  {
    var g := Generated(depot, customers, distances);
    var r := SavingsList(depot, customers, distances);
    SortDescSpec(g);
    KeyOrderMembers(PairRows(customers, customers));
    ItemsDistinct(depot, distances, KeyOrder(PairRows(customers, customers)));
    DistinctPermutation(g, r);
    forall e ensures e in r <==> IsSavingOf(e, depot, customers, distances) {
      GeneratedMember(depot, customers, distances, e);
      assert e in r <==> e in multiset(g);
    }
  }

  /** For n distinct customers the savings list has n * (n - 1) entries. */
  lemma SavingsListCount<N>(depot: N, customers: seq<N>, distances: N -> N -> int)
    requires Distinct(customers)
    ensures |SavingsList(depot, customers, distances)| == |customers| * (|customers| - 1)
  {
    PairRowsDistinct(customers, customers);
    KeyOrderOfDistinct(PairRows(customers, customers));
    PairRowsCount(customers, customers);
    var g := Generated(depot, customers, distances);
    SortDescSpec(g);
    assert |multiset(SavingsList(depot, customers, distances))| == |multiset(g)|;
  }
}
