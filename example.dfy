/**
 * The example instance of `VRPBeispiel.py`: five nodes, depot 0, customers
 * 1 to 4, capacity 10, two vehicles. The savings list, the merge pass and
 * the result of `solve` are computed here step by step.
 */
module CvrpExample {
  import opened Wrappers
  import opened Savings
  import opened Routes
  import opened ClarkeWright

  /** The cost matrix of the example; it is not symmetric (d[0][3] is 0, d[3][0] is 20). */
  const Matrix: seq<seq<int>> := [
    [0, 10, 15, 0, 10],
    [10, 0, 30, 25, 30],
    [15, 30, 0, 30, 20],
    [20, 25, 30, 0, 15],
    [10, 30, 20, 15, 0]]

  const DemandList: seq<int> := [0, 5, 10, 5, 10]

  /** `distances[a][b]`; nodes outside the matrix do not occur in the example. */
  function Distances(a: int): int -> int
  {
    b => if 0 <= a < 5 && 0 <= b < 5 then Matrix[a][b] else 0
  }

  /** `demands[a]` */
  function Demands(a: int): int
  {
    if 0 <= a < 5 then DemandList[a] else 0
  }

  const Initial: seq<seq<int>> := [[0, 1, 0], [0, 2, 0], [0, 3, 0], [0, 4, 0]]
  const Merged: seq<seq<int>> := [[0, 2, 0], [0, 4, 0], [0, 1, 3, 0]]

  /** The savings entries in the order the loops generate them. */
  const GeneratedExample: seq<Saving<int>> := [Saving(1, 2, -5), Saving(1, 3, -15), Saving(1, 4, -10), Saving(2, 1, -5), Saving(2, 3, -15), Saving(2, 4, 5), Saving(3, 1, -15), Saving(3, 2, -15), Saving(3, 4, -5), Saving(4, 1, -10), Saving(4, 2, 5), Saving(4, 3, -5)]

  /** The savings list: sorted by descending saving, ties in generation order. */
  const SavingsExample: seq<Saving<int>> := [Saving(2, 4, 5), Saving(4, 2, 5), Saving(1, 2, -5), Saving(2, 1, -5), Saving(3, 4, -5), Saving(4, 3, -5), Saving(1, 4, -10), Saving(4, 1, -10), Saving(1, 3, -15), Saving(2, 3, -15), Saving(3, 1, -15), Saving(3, 2, -15)]

  lemma SortAt<N>(s: seq<Saving<N>>, k: nat)
    requires k < |s|
    ensures SortDesc(s[k..]) == Insert(s[k], SortDesc(s[k + 1..]))
  {
    assert s[k..][1..] == s[k + 1..];
  }

  lemma SortSuffix11()
    ensures SortDesc(GeneratedExample[11..]) == [Saving(4, 3, -5)]
  {
    assert GeneratedExample[12..] == [];
    SortAt(GeneratedExample, 11);
    assert GeneratedExample[11] == Saving(4, 3, -5);
    InsertStep11(GeneratedExample[11], SortDesc(GeneratedExample[12..]));
  }

  lemma InsertStep11(x: Saving<int>, t: seq<Saving<int>>)
    requires x == Saving(4, 3, -5) && t == []
    ensures Insert(x, t) == [Saving(4, 3, -5)]
  {
    InsertPosition(x, t, 0);
    assert t[..0] + [x] + t[0..] == [Saving(4, 3, -5)];
  }

  lemma SortSuffix10()
    ensures SortDesc(GeneratedExample[10..]) == [Saving(4, 2, 5), Saving(4, 3, -5)]
  {
    SortSuffix11();
    SortAt(GeneratedExample, 10);
    assert GeneratedExample[10] == Saving(4, 2, 5);
    InsertStep10(GeneratedExample[10], SortDesc(GeneratedExample[11..]));
  }

  lemma InsertStep10(x: Saving<int>, t: seq<Saving<int>>)
    requires x == Saving(4, 2, 5) && t == [Saving(4, 3, -5)]
    ensures Insert(x, t) == [Saving(4, 2, 5), Saving(4, 3, -5)]
  {
    InsertPosition(x, t, 0);
    assert t[..0] + [x] + t[0..] == [Saving(4, 2, 5), Saving(4, 3, -5)];
  }

  lemma SortSuffix9()
    ensures SortDesc(GeneratedExample[9..]) == [Saving(4, 2, 5), Saving(4, 3, -5), Saving(4, 1, -10)]
  {
    SortSuffix10();
    SortAt(GeneratedExample, 9);
    assert GeneratedExample[9] == Saving(4, 1, -10);
    InsertStep9(GeneratedExample[9], SortDesc(GeneratedExample[10..]));
  }

  lemma InsertStep9(x: Saving<int>, t: seq<Saving<int>>)
    requires x == Saving(4, 1, -10) && t == [Saving(4, 2, 5), Saving(4, 3, -5)]
    ensures Insert(x, t) == [Saving(4, 2, 5), Saving(4, 3, -5), Saving(4, 1, -10)]
  {
    InsertPosition(x, t, 2);
    assert t[..2] + [x] + t[2..] == [Saving(4, 2, 5), Saving(4, 3, -5), Saving(4, 1, -10)];
  }

  lemma SortSuffix8()
    ensures SortDesc(GeneratedExample[8..]) == [Saving(4, 2, 5), Saving(3, 4, -5), Saving(4, 3, -5), Saving(4, 1, -10)]
  {
    SortSuffix9();
    SortAt(GeneratedExample, 8);
    assert GeneratedExample[8] == Saving(3, 4, -5);
    InsertStep8(GeneratedExample[8], SortDesc(GeneratedExample[9..]));
  }

  lemma InsertStep8(x: Saving<int>, t: seq<Saving<int>>)
    requires x == Saving(3, 4, -5) && t == [Saving(4, 2, 5), Saving(4, 3, -5), Saving(4, 1, -10)]
    ensures Insert(x, t) == [Saving(4, 2, 5), Saving(3, 4, -5), Saving(4, 3, -5), Saving(4, 1, -10)]
  {
    InsertPosition(x, t, 1);
    assert t[..1] + [x] + t[1..] == [Saving(4, 2, 5), Saving(3, 4, -5), Saving(4, 3, -5), Saving(4, 1, -10)];
  }

  lemma SortSuffix7()
    ensures SortDesc(GeneratedExample[7..]) == [Saving(4, 2, 5), Saving(3, 4, -5), Saving(4, 3, -5), Saving(4, 1, -10), Saving(3, 2, -15)]
  {
    SortSuffix8();
    SortAt(GeneratedExample, 7);
    assert GeneratedExample[7] == Saving(3, 2, -15);
    InsertStep7(GeneratedExample[7], SortDesc(GeneratedExample[8..]));
  }

  lemma InsertStep7(x: Saving<int>, t: seq<Saving<int>>)
    requires x == Saving(3, 2, -15) && t == [Saving(4, 2, 5), Saving(3, 4, -5), Saving(4, 3, -5), Saving(4, 1, -10)]
    ensures Insert(x, t) == [Saving(4, 2, 5), Saving(3, 4, -5), Saving(4, 3, -5), Saving(4, 1, -10), Saving(3, 2, -15)]
  {
    InsertPosition(x, t, 4);
    assert t[..4] + [x] + t[4..] == [Saving(4, 2, 5), Saving(3, 4, -5), Saving(4, 3, -5), Saving(4, 1, -10), Saving(3, 2, -15)];
  }

  lemma SortSuffix6()
    ensures SortDesc(GeneratedExample[6..]) == [Saving(4, 2, 5), Saving(3, 4, -5), Saving(4, 3, -5), Saving(4, 1, -10), Saving(3, 1, -15), Saving(3, 2, -15)]
  {
    SortSuffix7();
    SortAt(GeneratedExample, 6);
    assert GeneratedExample[6] == Saving(3, 1, -15);
    InsertStep6(GeneratedExample[6], SortDesc(GeneratedExample[7..]));
  }

  lemma InsertStep6(x: Saving<int>, t: seq<Saving<int>>)
    requires x == Saving(3, 1, -15) && t == [Saving(4, 2, 5), Saving(3, 4, -5), Saving(4, 3, -5), Saving(4, 1, -10), Saving(3, 2, -15)]
    ensures Insert(x, t) == [Saving(4, 2, 5), Saving(3, 4, -5), Saving(4, 3, -5), Saving(4, 1, -10), Saving(3, 1, -15), Saving(3, 2, -15)]
  {
    InsertPosition(x, t, 4);
    assert t[..4] + [x] + t[4..] == [Saving(4, 2, 5), Saving(3, 4, -5), Saving(4, 3, -5), Saving(4, 1, -10), Saving(3, 1, -15), Saving(3, 2, -15)];
  }

  lemma SortSuffix5()
    ensures SortDesc(GeneratedExample[5..]) == [Saving(2, 4, 5), Saving(4, 2, 5), Saving(3, 4, -5), Saving(4, 3, -5), Saving(4, 1, -10), Saving(3, 1, -15), Saving(3, 2, -15)]
  {
    SortSuffix6();
    SortAt(GeneratedExample, 5);
    assert GeneratedExample[5] == Saving(2, 4, 5);
    InsertStep5(GeneratedExample[5], SortDesc(GeneratedExample[6..]));
  }

  lemma InsertStep5(x: Saving<int>, t: seq<Saving<int>>)
    requires x == Saving(2, 4, 5) && t == [Saving(4, 2, 5), Saving(3, 4, -5), Saving(4, 3, -5), Saving(4, 1, -10), Saving(3, 1, -15), Saving(3, 2, -15)]
    ensures Insert(x, t) == [Saving(2, 4, 5), Saving(4, 2, 5), Saving(3, 4, -5), Saving(4, 3, -5), Saving(4, 1, -10), Saving(3, 1, -15), Saving(3, 2, -15)]
  {
    InsertPosition(x, t, 0);
    assert t[..0] + [x] + t[0..] == [Saving(2, 4, 5), Saving(4, 2, 5), Saving(3, 4, -5), Saving(4, 3, -5), Saving(4, 1, -10), Saving(3, 1, -15), Saving(3, 2, -15)];
  }

  lemma SortSuffix4()
    ensures SortDesc(GeneratedExample[4..]) == [Saving(2, 4, 5), Saving(4, 2, 5), Saving(3, 4, -5), Saving(4, 3, -5), Saving(4, 1, -10), Saving(2, 3, -15), Saving(3, 1, -15), Saving(3, 2, -15)]
  {
    SortSuffix5();
    SortAt(GeneratedExample, 4);
    assert GeneratedExample[4] == Saving(2, 3, -15);
    InsertStep4(GeneratedExample[4], SortDesc(GeneratedExample[5..]));
  }

  lemma InsertStep4(x: Saving<int>, t: seq<Saving<int>>)
    requires x == Saving(2, 3, -15) && t == [Saving(2, 4, 5), Saving(4, 2, 5), Saving(3, 4, -5), Saving(4, 3, -5), Saving(4, 1, -10), Saving(3, 1, -15), Saving(3, 2, -15)]
    ensures Insert(x, t) == [Saving(2, 4, 5), Saving(4, 2, 5), Saving(3, 4, -5), Saving(4, 3, -5), Saving(4, 1, -10), Saving(2, 3, -15), Saving(3, 1, -15), Saving(3, 2, -15)]
  {
    InsertPosition(x, t, 5);
    assert t[..5] + [x] + t[5..] == [Saving(2, 4, 5), Saving(4, 2, 5), Saving(3, 4, -5), Saving(4, 3, -5), Saving(4, 1, -10), Saving(2, 3, -15), Saving(3, 1, -15), Saving(3, 2, -15)];
  }

  lemma SortSuffix3()
    ensures SortDesc(GeneratedExample[3..]) == [Saving(2, 4, 5), Saving(4, 2, 5), Saving(2, 1, -5), Saving(3, 4, -5), Saving(4, 3, -5), Saving(4, 1, -10), Saving(2, 3, -15), Saving(3, 1, -15), Saving(3, 2, -15)]
  {
    SortSuffix4();
    SortAt(GeneratedExample, 3);
    assert GeneratedExample[3] == Saving(2, 1, -5);
    InsertStep3(GeneratedExample[3], SortDesc(GeneratedExample[4..]));
  }

  lemma InsertStep3(x: Saving<int>, t: seq<Saving<int>>)
    requires x == Saving(2, 1, -5) && t == [Saving(2, 4, 5), Saving(4, 2, 5), Saving(3, 4, -5), Saving(4, 3, -5), Saving(4, 1, -10), Saving(2, 3, -15), Saving(3, 1, -15), Saving(3, 2, -15)]
    ensures Insert(x, t) == [Saving(2, 4, 5), Saving(4, 2, 5), Saving(2, 1, -5), Saving(3, 4, -5), Saving(4, 3, -5), Saving(4, 1, -10), Saving(2, 3, -15), Saving(3, 1, -15), Saving(3, 2, -15)]
  {
    InsertPosition(x, t, 2);
    assert t[..2] + [x] + t[2..] == [Saving(2, 4, 5), Saving(4, 2, 5), Saving(2, 1, -5), Saving(3, 4, -5), Saving(4, 3, -5), Saving(4, 1, -10), Saving(2, 3, -15), Saving(3, 1, -15), Saving(3, 2, -15)];
  }

  lemma SortSuffix2()
    ensures SortDesc(GeneratedExample[2..]) == [Saving(2, 4, 5), Saving(4, 2, 5), Saving(2, 1, -5), Saving(3, 4, -5), Saving(4, 3, -5), Saving(1, 4, -10), Saving(4, 1, -10), Saving(2, 3, -15), Saving(3, 1, -15), Saving(3, 2, -15)]
  {
    SortSuffix3();
    SortAt(GeneratedExample, 2);
    assert GeneratedExample[2] == Saving(1, 4, -10);
    InsertStep2(GeneratedExample[2], SortDesc(GeneratedExample[3..]));
  }

  lemma InsertStep2(x: Saving<int>, t: seq<Saving<int>>)
    requires x == Saving(1, 4, -10) && t == [Saving(2, 4, 5), Saving(4, 2, 5), Saving(2, 1, -5), Saving(3, 4, -5), Saving(4, 3, -5), Saving(4, 1, -10), Saving(2, 3, -15), Saving(3, 1, -15), Saving(3, 2, -15)]
    ensures Insert(x, t) == [Saving(2, 4, 5), Saving(4, 2, 5), Saving(2, 1, -5), Saving(3, 4, -5), Saving(4, 3, -5), Saving(1, 4, -10), Saving(4, 1, -10), Saving(2, 3, -15), Saving(3, 1, -15), Saving(3, 2, -15)]
  {
    InsertPosition(x, t, 5);
    assert t[..5] + [x] + t[5..] == [Saving(2, 4, 5), Saving(4, 2, 5), Saving(2, 1, -5), Saving(3, 4, -5), Saving(4, 3, -5), Saving(1, 4, -10), Saving(4, 1, -10), Saving(2, 3, -15), Saving(3, 1, -15), Saving(3, 2, -15)];
  }

  lemma SortSuffix1()
    ensures SortDesc(GeneratedExample[1..]) == [Saving(2, 4, 5), Saving(4, 2, 5), Saving(2, 1, -5), Saving(3, 4, -5), Saving(4, 3, -5), Saving(1, 4, -10), Saving(4, 1, -10), Saving(1, 3, -15), Saving(2, 3, -15), Saving(3, 1, -15), Saving(3, 2, -15)]
  {
    SortSuffix2();
    SortAt(GeneratedExample, 1);
    assert GeneratedExample[1] == Saving(1, 3, -15);
    InsertStep1(GeneratedExample[1], SortDesc(GeneratedExample[2..]));
  }

  lemma InsertStep1(x: Saving<int>, t: seq<Saving<int>>)
    requires x == Saving(1, 3, -15) && t == [Saving(2, 4, 5), Saving(4, 2, 5), Saving(2, 1, -5), Saving(3, 4, -5), Saving(4, 3, -5), Saving(1, 4, -10), Saving(4, 1, -10), Saving(2, 3, -15), Saving(3, 1, -15), Saving(3, 2, -15)]
    ensures Insert(x, t) == [Saving(2, 4, 5), Saving(4, 2, 5), Saving(2, 1, -5), Saving(3, 4, -5), Saving(4, 3, -5), Saving(1, 4, -10), Saving(4, 1, -10), Saving(1, 3, -15), Saving(2, 3, -15), Saving(3, 1, -15), Saving(3, 2, -15)]
  {
    InsertPosition(x, t, 7);
    assert t[..7] + [x] + t[7..] == [Saving(2, 4, 5), Saving(4, 2, 5), Saving(2, 1, -5), Saving(3, 4, -5), Saving(4, 3, -5), Saving(1, 4, -10), Saving(4, 1, -10), Saving(1, 3, -15), Saving(2, 3, -15), Saving(3, 1, -15), Saving(3, 2, -15)];
  }

  lemma SortSuffix0()
    ensures SortDesc(GeneratedExample[0..]) == [Saving(2, 4, 5), Saving(4, 2, 5), Saving(1, 2, -5), Saving(2, 1, -5), Saving(3, 4, -5), Saving(4, 3, -5), Saving(1, 4, -10), Saving(4, 1, -10), Saving(1, 3, -15), Saving(2, 3, -15), Saving(3, 1, -15), Saving(3, 2, -15)]
  {
    SortSuffix1();
    SortAt(GeneratedExample, 0);
    assert GeneratedExample[0] == Saving(1, 2, -5);
    InsertStep0(GeneratedExample[0], SortDesc(GeneratedExample[1..]));
  }

  lemma InsertStep0(x: Saving<int>, t: seq<Saving<int>>)
    requires x == Saving(1, 2, -5) && t == [Saving(2, 4, 5), Saving(4, 2, 5), Saving(2, 1, -5), Saving(3, 4, -5), Saving(4, 3, -5), Saving(1, 4, -10), Saving(4, 1, -10), Saving(1, 3, -15), Saving(2, 3, -15), Saving(3, 1, -15), Saving(3, 2, -15)]
    ensures Insert(x, t) == [Saving(2, 4, 5), Saving(4, 2, 5), Saving(1, 2, -5), Saving(2, 1, -5), Saving(3, 4, -5), Saving(4, 3, -5), Saving(1, 4, -10), Saving(4, 1, -10), Saving(1, 3, -15), Saving(2, 3, -15), Saving(3, 1, -15), Saving(3, 2, -15)]
  {
    InsertPosition(x, t, 2);
    assert t[..2] + [x] + t[2..] == [Saving(2, 4, 5), Saving(4, 2, 5), Saving(1, 2, -5), Saving(2, 1, -5), Saving(3, 4, -5), Saving(4, 3, -5), Saving(1, 4, -10), Saving(4, 1, -10), Saving(1, 3, -15), Saving(2, 3, -15), Saving(3, 1, -15), Saving(3, 2, -15)];
  }

  lemma RowSnoc(i: int, cs: seq<int>, j: int)
    ensures PairRow(i, cs + [j]) == PairRow(i, cs) + (if j != i then [(i, j)] else [])
  {
    assert (cs + [j])[..|cs|] == cs;
  }

  lemma RowsSnoc(outer: seq<int>, cs: seq<int>, i: int)
    ensures PairRows(outer + [i], cs) == PairRows(outer, cs) + PairRow(i, cs)
  {
    assert (outer + [i])[..|outer|] == outer;
  }

  lemma Row1()
    ensures PairRow(1, [1, 2, 3, 4]) == [(1, 2), (1, 3), (1, 4)]
  {
    RowSnoc(1, [], 1);
    RowSnoc(1, [1], 2);
    RowSnoc(1, [1, 2], 3);
    RowSnoc(1, [1, 2, 3], 4);
    assert [] + [1] == [1];
    assert [1] + [2] == [1, 2];
    assert [1, 2] + [3] == [1, 2, 3];
    assert [1, 2, 3] + [4] == [1, 2, 3, 4];
  }

  lemma Row2()
    ensures PairRow(2, [1, 2, 3, 4]) == [(2, 1), (2, 3), (2, 4)]
  {
    RowSnoc(2, [], 1);
    RowSnoc(2, [1], 2);
    RowSnoc(2, [1, 2], 3);
    RowSnoc(2, [1, 2, 3], 4);
    assert [] + [1] == [1];
    assert [1] + [2] == [1, 2];
    assert [1, 2] + [3] == [1, 2, 3];
    assert [1, 2, 3] + [4] == [1, 2, 3, 4];
  }

  lemma Row3()
    ensures PairRow(3, [1, 2, 3, 4]) == [(3, 1), (3, 2), (3, 4)]
  {
    RowSnoc(3, [], 1);
    RowSnoc(3, [1], 2);
    RowSnoc(3, [1, 2], 3);
    RowSnoc(3, [1, 2, 3], 4);
    assert [] + [1] == [1];
    assert [1] + [2] == [1, 2];
    assert [1, 2] + [3] == [1, 2, 3];
    assert [1, 2, 3] + [4] == [1, 2, 3, 4];
  }

  lemma Row4()
    ensures PairRow(4, [1, 2, 3, 4]) == [(4, 1), (4, 2), (4, 3)]
  {
    RowSnoc(4, [], 1);
    RowSnoc(4, [1], 2);
    RowSnoc(4, [1, 2], 3);
    RowSnoc(4, [1, 2, 3], 4);
    assert [] + [1] == [1];
    assert [1] + [2] == [1, 2];
    assert [1, 2] + [3] == [1, 2, 3];
    assert [1, 2, 3] + [4] == [1, 2, 3, 4];
  }

  lemma Rows1()
    ensures PairRows([1], [1, 2, 3, 4]) == [(1, 2), (1, 3), (1, 4)]
  {
    RowsSnoc([], [1, 2, 3, 4], 1);
    Row1();
    assert [] + [1] == [1];
  }

  lemma Rows2()
    ensures PairRows([1, 2], [1, 2, 3, 4]) == [(1, 2), (1, 3), (1, 4), (2, 1), (2, 3), (2, 4)]
  {
    Rows1();
    RowsSnoc([1], [1, 2, 3, 4], 2);
    Row2();
    assert [1] + [2] == [1, 2];
  }

  lemma Rows3()
    ensures PairRows([1, 2, 3], [1, 2, 3, 4]) == [(1, 2), (1, 3), (1, 4), (2, 1), (2, 3), (2, 4), (3, 1), (3, 2), (3, 4)]
  {
    Rows2();
    RowsSnoc([1, 2], [1, 2, 3, 4], 3);
    Row3();
    assert [1, 2] + [3] == [1, 2, 3];
  }

  lemma Rows4()
    ensures PairRows([1, 2, 3, 4], [1, 2, 3, 4]) == [(1, 2), (1, 3), (1, 4), (2, 1), (2, 3), (2, 4), (3, 1), (3, 2), (3, 4), (4, 1), (4, 2), (4, 3)]
  {
    Rows3();
    RowsSnoc([1, 2, 3], [1, 2, 3, 4], 4);
    Row4();
    assert [1, 2, 3] + [4] == [1, 2, 3, 4];
  }

  lemma ItemsExample()
    ensures Items(0, Distances, [(1, 2), (1, 3), (1, 4), (2, 1), (2, 3), (2, 4), (3, 1), (3, 2), (3, 4), (4, 1), (4, 2), (4, 3)]) == GeneratedExample
  {
  }

  lemma MergePrefix0(s: seq<Saving<int>>)
    requires s == SavingsExample
    ensures MergeAll(Initial, s[..0], Demands, 10) == Initial
  {
    assert s[..0] == [];
  }

  lemma MergePrefix1(s: seq<Saving<int>>)
    requires s == SavingsExample
    ensures MergeAll(Initial, s[..1], Demands, 10) == Initial
  {
    MergePrefix0(s);
    MergeAllAt(Initial, s, 0, Demands, 10);
    assert s[0] == Saving(2, 4, 5);
    RejectOnInitial(2, 4);
  }

  lemma MergePrefix2(s: seq<Saving<int>>)
    requires s == SavingsExample
    ensures MergeAll(Initial, s[..2], Demands, 10) == Initial
  {
    MergePrefix1(s);
    MergeAllAt(Initial, s, 1, Demands, 10);
    assert s[1] == Saving(4, 2, 5);
    RejectOnInitial(4, 2);
  }

  lemma MergePrefix3(s: seq<Saving<int>>)
    requires s == SavingsExample
    ensures MergeAll(Initial, s[..3], Demands, 10) == Initial
  {
    MergePrefix2(s);
    MergeAllAt(Initial, s, 2, Demands, 10);
    assert s[2] == Saving(1, 2, -5);
    RejectOnInitial(1, 2);
  }

  lemma MergePrefix4(s: seq<Saving<int>>)
    requires s == SavingsExample
    ensures MergeAll(Initial, s[..4], Demands, 10) == Initial
  {
    MergePrefix3(s);
    MergeAllAt(Initial, s, 3, Demands, 10);
    assert s[3] == Saving(2, 1, -5);
    RejectOnInitial(2, 1);
  }

  lemma MergePrefix5(s: seq<Saving<int>>)
    requires s == SavingsExample
    ensures MergeAll(Initial, s[..5], Demands, 10) == Initial
  {
    MergePrefix4(s);
    MergeAllAt(Initial, s, 4, Demands, 10);
    assert s[4] == Saving(3, 4, -5);
    RejectOnInitial(3, 4);
  }

  lemma MergePrefix6(s: seq<Saving<int>>)
    requires s == SavingsExample
    ensures MergeAll(Initial, s[..6], Demands, 10) == Initial
  {
    MergePrefix5(s);
    MergeAllAt(Initial, s, 5, Demands, 10);
    assert s[5] == Saving(4, 3, -5);
    RejectOnInitial(4, 3);
  }

  lemma MergePrefix7(s: seq<Saving<int>>)
    requires s == SavingsExample
    ensures MergeAll(Initial, s[..7], Demands, 10) == Initial
  {
    MergePrefix6(s);
    MergeAllAt(Initial, s, 6, Demands, 10);
    assert s[6] == Saving(1, 4, -10);
    RejectOnInitial(1, 4);
  }

  lemma MergePrefix8(s: seq<Saving<int>>)
    requires s == SavingsExample
    ensures MergeAll(Initial, s[..8], Demands, 10) == Initial
  {
    MergePrefix7(s);
    MergeAllAt(Initial, s, 7, Demands, 10);
    assert s[7] == Saving(4, 1, -10);
    RejectOnInitial(4, 1);
  }

  lemma MergePrefix9(s: seq<Saving<int>>)
    requires s == SavingsExample
    ensures MergeAll(Initial, s[..9], Demands, 10) == Merged
  {
    MergePrefix8(s);
    MergeAllAt(Initial, s, 8, Demands, 10);
    assert s[8] == Saving(1, 3, -15);
    AcceptOneThree();
  }

  lemma MergePrefix10(s: seq<Saving<int>>)
    requires s == SavingsExample
    ensures MergeAll(Initial, s[..10], Demands, 10) == Merged
  {
    MergePrefix9(s);
    MergeAllAt(Initial, s, 9, Demands, 10);
    assert s[9] == Saving(2, 3, -15);
    RejectOnMerged(2, 3);
  }

  lemma MergePrefix11(s: seq<Saving<int>>)
    requires s == SavingsExample
    ensures MergeAll(Initial, s[..11], Demands, 10) == Merged
  {
    MergePrefix10(s);
    MergeAllAt(Initial, s, 10, Demands, 10);
    assert s[10] == Saving(3, 1, -15);
    RejectOnMerged(3, 1);
  }

  lemma MergePrefix12(s: seq<Saving<int>>)
    requires s == SavingsExample
    ensures MergeAll(Initial, s[..12], Demands, 10) == Merged
  {
    MergePrefix11(s);
    MergeAllAt(Initial, s, 11, Demands, 10);
    assert s[11] == Saving(3, 2, -15);
    RejectOnMerged(3, 2);
  }

  lemma InitialExample()
    ensures InitialRoutes(0, [1, 2, 3, 4]) == Initial
  {
  }

  /** The savings list of the example, in the order `calculate_savings` returns it. */
  lemma ExampleSavings()
    ensures SavingsList(0, [1, 2, 3, 4], Distances) == SavingsExample
  {
    Rows4();
    assert Distinct([1, 2, 3, 4]);
    PairRowsDistinct([1, 2, 3, 4], [1, 2, 3, 4]);
    KeyOrderOfDistinct(PairRows([1, 2, 3, 4], [1, 2, 3, 4]));
    ItemsExample();
    SortSuffix0();
    assert GeneratedExample[0..] == GeneratedExample;
  }

  lemma MergeAllAt<N>(rs: seq<seq<N>>, s: seq<Saving<N>>, k: nat, demands: N -> int, capacity: int)
    requires k < |s|
    ensures MergeAll(rs, s[..k + 1], demands, capacity)
         == MergePair(MergeAll(rs, s[..k], demands, capacity), s[k].i, s[k].j, demands, capacity)
  {
    assert s[..k + 1][..k] == s[..k];
  }

  lemma FindOnInitial(a: int)
    requires 1 <= a <= 4
    ensures FindRoute(Initial, a) == Some([0, a, 0])
  {
    if a == 1 {
      assert FindRoute(Initial, 1) == Some([0, 1, 0]);
    } else if a == 2 {
      assert FindRoute(Initial, 2) == Some([0, 2, 0]);
    } else if a == 3 {
      assert FindRoute(Initial, 3) == Some([0, 3, 0]);
    } else {
      assert FindRoute(Initial, 4) == Some([0, 4, 0]);
    }
  }

  /** Two single-customer routes whose demands exceed the capacity together stay apart. */
  lemma RejectOnInitial(a: int, b: int)
    requires 1 <= a <= 4 && 1 <= b <= 4 && a != b && Demands(a) + Demands(b) > 10
    ensures MergePair(Initial, a, b, Demands, 10) == Initial
  {
    FindOnInitial(a);
    FindOnInitial(b);
    assert Interior([0, a, 0]) + Interior([0, b, 0]) == [a, b];
    assert [a, b][1..] == [b] && [b][1..] == [];
    assert Demand([b], Demands) == Demands(b);
    assert Demand([a, b], Demands) == Demands(a) + Demands(b);
    assert !Accepts(Initial, a, b, Demands, 10);
  }

  /** Customers 1 and 3 (demand 5 each) are merged into [0, 1, 3, 0], appended last. */
  lemma AcceptOneThree()
    ensures MergePair(Initial, 1, 3, Demands, 10) == Merged
  {
    FindOnInitial(1);
    FindOnInitial(3);
    DemandOneThree();
    RemoveOneThree();
    assert Spliced([0, 1, 0], [0, 3, 0]) == [0, 1, 3, 0];
  }

  /** Customers 1 and 3 together fill the capacity exactly. */
  lemma DemandOneThree()
    ensures Interior([0, 1, 0]) + Interior([0, 3, 0]) == [1, 3]
    ensures Demand([1, 3], Demands) == 10
  {
    assert Interior([0, 1, 0]) == [1] && Interior([0, 3, 0]) == [3];
  }

  /** Removing the round trips to 1 and then to 3 leaves those to 2 and 4. */
  lemma RemoveOneThree()
    ensures RemoveFirst(Initial, [0, 1, 0]) == [[0, 2, 0], [0, 3, 0], [0, 4, 0]]
    ensures RemoveFirst([[0, 2, 0], [0, 3, 0], [0, 4, 0]], [0, 3, 0]) == [[0, 2, 0], [0, 4, 0]]
  {
    assert FirstIndex(Initial, [0, 1, 0]) == 0;
    assert FirstIndex([[0, 2, 0], [0, 3, 0], [0, 4, 0]], [0, 3, 0]) == 1;
  }

  /** After the merge no further pair of the list fits or joins different routes. */
  lemma RejectOnMerged(a: int, b: int)
    requires (a, b) == (2, 3) || (a, b) == (3, 1) || (a, b) == (3, 2)
    ensures MergePair(Merged, a, b, Demands, 10) == Merged
  {
    assert FindRoute(Merged, 1) == Some([0, 1, 3, 0]);
    assert FindRoute(Merged, 2) == Some([0, 2, 0]);
    assert FindRoute(Merged, 3) == Some([0, 1, 3, 0]);
    assert Interior([0, 2, 0]) + Interior([0, 1, 3, 0]) == [2, 1, 3];
    assert Interior([0, 1, 3, 0]) + Interior([0, 2, 0]) == [1, 3, 2];
    assert Demand([2, 1, 3], Demands) == 20;
    assert Demand([1, 3, 2], Demands) == 20;
  }

  /**
   * The example of `VRPBeispiel.py`: only customers 1 and 3 are merged, so
   * the pass ends with [[0, 2, 0], [0, 4, 0], [0, 1, 3, 0]], and with two
   * vehicles `solve` returns the first two of these routes; customers 1 and
   * 3 are left without a vehicle.
   */
  lemma ExampleRun()
    ensures MergeAll(InitialRoutes(0, [1, 2, 3, 4]), SavingsList(0, [1, 2, 3, 4], Distances), Demands, 10)
         == [[0, 2, 0], [0, 4, 0], [0, 1, 3, 0]]
    ensures Fleet([[0, 2, 0], [0, 4, 0], [0, 1, 3, 0]], 2) == [[0, 2, 0], [0, 4, 0]]
  {
    InitialExample();
    ExampleSavings();
    MergePrefix12(SavingsExample);
    assert SavingsExample[..12] == SavingsExample;
  }

  /** The script part of `VRPBeispiel.py`: build the instance and solve it. */
  method Example() returns (result: seq<seq<int>>)
    ensures result == [[0, 2, 0], [0, 4, 0]]
  {
    var problem := new CVRP(0, [1, 2, 3, 4], Distances, Demands, 10, 2);
    assert problem.routes == InitialRoutes(0, [1, 2, 3, 4]);
    ExampleRun();
    result := problem.Solve();
  }
}
