/**
 * The pipeline on the small tables of the unit tests: the ideal table
 * x | y1 y2 y3 with rows (1,1,2,3), (2,4,5,6), (3,7,8,9); a training table
 * with two columns after x, and three test points.
 */
module Scenario {
  import opened Wrappers
  import opened Matcher
  import opened Deviation
  import opened Assigner

  const IdealColumns: seq<seq<real>> := [[1.0, 2.0, 3.0], [1.0, 4.0, 7.0], [2.0, 5.0, 8.0], [3.0, 6.0, 9.0]]
  const IdealRows: seq<seq<real>> := [[1.0, 1.0, 2.0, 3.0], [2.0, 4.0, 5.0, 6.0], [3.0, 7.0, 8.0, 9.0]]
  const Training: seq<seq<real>> := [[1.0, 2.0, 3.0], [1.1, 4.2, 6.9], [3.5, 6.1, 8.8]]
  const Tests: seq<Point> := [Point(1.0, 2.4), Point(2.0, 5.0), Point(3.0, 7.1)]

  /** The row view and the column view of the unit-test ideal table hold the same values. */
  lemma IdealTableScenario()
    ensures SameTable(IdealColumns, IdealRows)
  {
    forall j, k | 0 <= j < 3 && 0 <= k < 4
      ensures IdealRows[j][k] == IdealColumns[k][j]
    {
    }
  }

  lemma SumSquaredErrorOfThree(t: seq<real>, f: seq<real>)
    requires |t| == 3 <= |f|
    ensures SumSquaredError(t, f) == Sq(t[0] - f[0]) + Sq(t[1] - f[1]) + Sq(t[2] - f[2])
  {
    assert t[..2][..1] == t[..1] && t[..1][..0] == [];
    assert SumSquaredError(t[..1], f) == Sq(t[0] - f[0]);
    assert SumSquaredError(t[..2], f) == SumSquaredError(t[..1], f) + Sq(t[1] - f[1]);
  }

  lemma MaxDeviationOfThree(t: seq<real>, f: seq<real>)
    requires |t| == 3 <= |f|
    ensures MaxDeviation(t, f) == Max(Max(Abs(t[0] - f[0]), Abs(t[1] - f[1])), Abs(t[2] - f[2]))
  {
    assert t[..2][..1] == t[..1] && t[..1][..0] == [];
    assert MaxDeviation(t[..1], f) == Abs(t[0] - f[0]);
    assert MaxDeviation(t[..2], f) == Max(MaxDeviation(t[..1], f), Abs(t[1] - f[1]));
  }

  function Max(a: real, b: real): real
  {
    if b > a then b else a
  }

  /** The matcher picks ideal function 1 for the first training column and 3 for the second. */
  lemma MatcherScenario()
    ensures BestMatch(Training[1], IdealColumns) == Some(1)
    ensures BestMatch(Training[2], IdealColumns) == Some(3)
  {
    forall k, j | 1 <= k < 3 && 1 <= j < 4
      ensures SumSquaredError(Training[k], IdealColumns[j]) ==
              Sq(Training[k][0] - IdealColumns[j][0]) + Sq(Training[k][1] - IdealColumns[j][1])
              + Sq(Training[k][2] - IdealColumns[j][2])
    {
      SumSquaredErrorOfThree(Training[k], IdealColumns[j]);
    }
    assert SumSquaredError(Training[1], IdealColumns[1]) == 0.06;
    assert SumSquaredError(Training[1], IdealColumns[2]) == 2.66;
    assert SumSquaredError(Training[1], IdealColumns[3]) == 11.26;
    assert SumSquaredError(Training[2], IdealColumns[1]) == 13.9;
    assert SumSquaredError(Training[2], IdealColumns[2]) == 4.1;
    assert SumSquaredError(Training[2], IdealColumns[3]) == 0.3;
    assert ScanBest(Training[1], IdealColumns, 2) == Some(1);
    assert ScanBest(Training[1], IdealColumns, 3) == Some(1);
    assert ScanBest(Training[2], IdealColumns, 2) == Some(1);
    assert ScanBest(Training[2], IdealColumns, 3) == Some(2);
  }

  /** The thresholds: 0.2 for function 1 and 0.5 for function 3. */
  lemma ThresholdScenario()
    ensures Fits(Tail(Training), IdealColumns[1]) && Fits(Tail(Training), IdealColumns[3])
    ensures Threshold(Tail(Training), IdealColumns[1]) == Some(0.2)
    ensures Threshold(Tail(Training), IdealColumns[3]) == Some(0.5)
  {
    assert Tail(Training) == [Training[1], Training[2]];
    forall k, j | 1 <= k < 3 && 1 <= j < 4
      ensures MaxDeviation(Training[k], IdealColumns[j]) ==
              Max(Max(Abs(Training[k][0] - IdealColumns[j][0]), Abs(Training[k][1] - IdealColumns[j][1])),
                  Abs(Training[k][2] - IdealColumns[j][2]))
    {
      MaxDeviationOfThree(Training[k], IdealColumns[j]);
    }
    assert MaxDeviation(Training[1], IdealColumns[1]) == 0.2;
    assert MaxDeviation(Training[2], IdealColumns[1]) == 2.5;
    assert MaxDeviation(Training[1], IdealColumns[3]) == 2.1;
    assert MaxDeviation(Training[2], IdealColumns[3]) == 0.5;
    assert [Training[1], Training[2]][..1] == [Training[1]];
    assert [Training[1]][..0] == [];
    assert Threshold([Training[1]], IdealColumns[1]) == Some(0.2);
    assert Threshold([Training[1]], IdealColumns[3]) == Some(2.1);
  }

  /**
   * (1, 2.4) goes to function 3 with deviation 0.6, (3, 7.1) to function 1
   * with deviation 0.1, and (2, 5.0), equally far from both, is dropped.
   */
  lemma AssignScenario()
    ensures Assignable(Training, IdealColumns, IdealRows, [1, 3])
    ensures Assign(Training, IdealColumns, IdealRows, Tests, [1, 3]) ==
            Success([Assignment(1.0, 2.4, 0.6, 3), Assignment(3.0, 7.1, 0.1, 1)])
  {
    var ids: seq<nat> := [1, 3];
    RecordScenario();
    var first, last := Assignment(1.0, 2.4, 0.6, 3), Assignment(3.0, 7.1, 0.1, 1);
    assert Tests[..0] == [] && Tests[..3] == Tests;
    AssignNext(Training, IdealColumns, IdealRows, Tests, 0, ids, []);
    assert [] + [first] == [first];
    AssignNext(Training, IdealColumns, IdealRows, Tests, 1, ids, [first]);
    assert [first] + [] == [first];
    AssignNext(Training, IdealColumns, IdealRows, Tests, 2, ids, [first]);
    assert [first] + [last] == [first, last];
  }

  /** Each test point's x has an ideal row, and the record each one yields. */
  lemma RecordScenario()
    ensures Assignable(Training, IdealColumns, IdealRows, [1, 3])
    ensures XRow(IdealRows, Tests[0].x) == Some(IdealRows[0])
    ensures XRow(IdealRows, Tests[1].x) == Some(IdealRows[1])
    ensures XRow(IdealRows, Tests[2].x) == Some(IdealRows[2])
    ensures Record(Training, IdealColumns, [1, 3], Tests[0], IdealRows[0]) == Some(Assignment(1.0, 2.4, 0.6, 3))
    ensures Record(Training, IdealColumns, [1, 3], Tests[1], IdealRows[1]) == None
    ensures Record(Training, IdealColumns, [1, 3], Tests[2], IdealRows[2]) == Some(Assignment(3.0, 7.1, 0.1, 1))
  {
    ThresholdScenario();
    var ids: seq<nat> := [1, 3];
    assert Assignable(Training, IdealColumns, IdealRows, ids);
    assert ids[..1] == [1];
    assert Closest(2.4, IdealRows[0], ids) == Some(3);
    assert Closest(5.0, IdealRows[1], ids) == Some(1);
    assert Closest(7.1, IdealRows[2], ids) == Some(1);
  }

  /**
   * The unit test of assign_test_data, run through the methods: the
   * matcher yields [1, 3] and the assigner the two accepted records.
   */
  method AssignTestDataScenario() returns (matches: seq<Option<nat>>, assignments: Result<seq<Assignment>, AssignError>)
    ensures matches == [Some(1), Some(3)]
    ensures assignments == Success([Assignment(1.0, 2.4, 0.6, 3), Assignment(3.0, 7.1, 0.1, 1)])
  {
    matches := FindBestMatchingFunctions(Training, IdealColumns);
    MatcherScenario();
    assert Tail(Training) == [Training[1], Training[2]];
    assert matches == [Some(1), Some(3)];
    assert Matched(matches) == [1, 3];
    AssignScenario();
    assignments := AssignTestData(Training, IdealColumns, IdealRows, Tests, matches);
  }
}
