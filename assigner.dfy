/**
 * The assigner: each test point is looked up in the ideal table at its
 * exact x, attributed to the matched id whose ideal value is closest (the
 * first-listed id winning ties), and kept only when that deviation is
 * within the id's threshold times the square root of two.
 */
module Assigner {
  import opened Wrappers
  import opened Matcher
  import opened Deviation

  /** A test row (x, y). */
  datatype Point = Point(x: real, y: real)

  /** An accepted assignment `{X, Y, Delta_Y, Ideal_Function_No}`. */
  datatype Assignment = Assignment(x: real, y: real, deltaY: real, idealFunctionNo: nat)

  /** The ideal table has no row at the test point's x (the original raises there). */
  datatype AssignError = LookupMiss(x: real)

  /** Row `row` of a table holds x value `x` in column 0. */
  predicate HasX(row: seq<real>, x: real)
  {
    |row| > 0 && row[0] == x
  }

  /** get_x_row: the first row of the table whose x (column 0) is exactly `x`. */
  function XRow(rows: seq<seq<real>>, x: real): (r: Option<seq<real>>)
    ensures r.Some? ==> r.value in rows
    decreases |rows|
  {
    if |rows| == 0 then None
    else if HasX(rows[0], x) then Some(rows[0])
    else XRow(rows[1..], x)
  }

  /** The lookup finds nothing iff no row has that x, and otherwise the first row that has it. */
  lemma {:induction false} XRowIsFirstMatch(rows: seq<seq<real>>, x: real)
    ensures XRow(rows, x).None? <==> forall j :: 0 <= j < |rows| ==> !HasX(rows[j], x)
    ensures XRow(rows, x).Some? ==>
              exists j :: && 0 <= j < |rows| && rows[j] == XRow(rows, x).value && HasX(rows[j], x)
                          && forall i :: 0 <= i < j ==> !HasX(rows[i], x)
    decreases |rows|
  {
    if |rows| > 0 && !HasX(rows[0], x) {
      var rest := rows[1..];
      XRowIsFirstMatch(rest, x);
      assert forall j :: 1 <= j < |rows| ==> rows[j] == rest[j - 1];
      if XRow(rest, x).Some? {
        var j :| && 0 <= j < |rest| && rest[j] == XRow(rest, x).value && HasX(rest[j], x)
                 && forall i :: 0 <= i < j ==> !HasX(rest[i], x);
        assert rows[j + 1] == XRow(rows, x).value;
        forall i | 0 <= i < j + 1
          ensures !HasX(rows[i], x)
        {
          if i > 0 {
            assert rows[i] == rest[i - 1];
          }
        }
      } else {
        forall j | 0 <= j < |rows|
          ensures !HasX(rows[j], x)
        {
          if j > 0 {
            assert rows[j] == rest[j - 1];
          }
        }
      }
    }
  }

  /** Every matched id names a value column of `row`. */
  ghost predicate Indexes(ids: seq<nat>, row: seq<real>)
  {
    forall m :: 0 <= m < |ids| ==> ids[m] < |row|
  }

  /** The deviation of y from the ideal value of function `id` in `row`. */
  function Dev(y: real, row: seq<real>, id: nat): real
    requires id < |row|
  {
    Abs(y - row[id])
  }

  /** The scan of the matched ids in list order from infinity, replacing on a strictly smaller deviation. */
  function Closest(y: real, row: seq<real>, ids: seq<nat>): (r: Option<nat>)
    requires Indexes(ids, row)
    ensures r.Some? ==> r.value in ids
    decreases |ids|
  {
    if |ids| == 0 then None
    else
      var prev := Closest(y, row, ids[..|ids| - 1]);
      var id := ids[|ids| - 1];
      if Below(Dev(y, row, id), if prev.None? then None else Some(Dev(y, row, prev.value)))
      then Some(id)
      else prev
  }

  /**
   * Position `i` holds a smallest deviation, and every earlier position
   * holds a strictly larger one: the first listed minimum.
   */
  ghost predicate IsFirstClosestAt(y: real, row: seq<real>, ids: seq<nat>, i: int)
    requires Indexes(ids, row)
  {
    && 0 <= i < |ids|
    && (forall m :: 0 <= m < |ids| ==> Dev(y, row, ids[i]) <= Dev(y, row, ids[m]))
    && (forall m :: 0 <= m < i ==> Dev(y, row, ids[i]) < Dev(y, row, ids[m]))
  }

  /** `id` is the id at the first listed position of minimal deviation. */
  ghost predicate IsFirstClosest(y: real, row: seq<real>, ids: seq<nat>, id: nat)
    requires Indexes(ids, row)
  {
    exists i :: IsFirstClosestAt(y, row, ids, i) && ids[i] == id
  }

  lemma {:induction false} ClosestIsFirstClosest(y: real, row: seq<real>, ids: seq<nat>)
    requires Indexes(ids, row)
    ensures Closest(y, row, ids).None? <==> |ids| == 0
    ensures Closest(y, row, ids).Some? ==> IsFirstClosest(y, row, ids, Closest(y, row, ids).value)
    decreases |ids|
  {
    if |ids| > 0 {
      var n := |ids| - 1;
      var p := ids[..n];
      assert Indexes(p, row);
      ClosestIsFirstClosest(y, row, p);
      var prev := Closest(y, row, p);
      if prev.None? {
        assert IsFirstClosestAt(y, row, ids, 0);
      } else {
        var i :| IsFirstClosestAt(y, row, p, i) && p[i] == prev.value;
        if Dev(y, row, ids[n]) < Dev(y, row, prev.value) {
          FirstClosestMovesToLast(y, row, ids, i);
        } else {
          FirstClosestStays(y, row, ids, i);
        }
      }
    }
  }

  /** A last id strictly closer than the first minimum of the others is the new first minimum. */
  lemma FirstClosestMovesToLast(y: real, row: seq<real>, ids: seq<nat>, i: int)
    requires Indexes(ids, row) && |ids| > 0
    requires IsFirstClosestAt(y, row, ids[..|ids| - 1], i)
    requires Dev(y, row, ids[|ids| - 1]) < Dev(y, row, ids[i])
    ensures IsFirstClosestAt(y, row, ids, |ids| - 1)
  {
    var n := |ids| - 1;
    forall m | 0 <= m < n
      ensures Dev(y, row, ids[n]) < Dev(y, row, ids[m])
    {
      assert ids[..n][m] == ids[m];
    }
  }

  /** A last id no closer than the first minimum of the others leaves that position the first minimum. */
  lemma FirstClosestStays(y: real, row: seq<real>, ids: seq<nat>, i: int)
    requires Indexes(ids, row) && |ids| > 0
    requires IsFirstClosestAt(y, row, ids[..|ids| - 1], i)
    requires Dev(y, row, ids[i]) <= Dev(y, row, ids[|ids| - 1])
    ensures IsFirstClosestAt(y, row, ids, i)
  {
    var n := |ids| - 1;
    forall m | 0 <= m < n
      ensures ids[..n][m] == ids[m]
    {
    }
  }

  /** At most one position, hence at most one id, is the first listed minimum. */
  lemma FirstClosestIsUnique(y: real, row: seq<real>, ids: seq<nat>, a: nat, b: nat)
    requires Indexes(ids, row)
    requires IsFirstClosest(y, row, ids, a) && IsFirstClosest(y, row, ids, b)
    ensures a == b
  {
    var i :| IsFirstClosestAt(y, row, ids, i) && ids[i] == a;
    var j :| IsFirstClosestAt(y, row, ids, j) && ids[j] == b;
    assert Dev(y, row, ids[i]) <= Dev(y, row, ids[j]) <= Dev(y, row, ids[i]);
    assert !(i < j) && !(j < i);
  }

  /**
   * The closest matched id is `Some(id)` exactly when `id` is the first
   * listed id of minimal deviation, and None exactly when no id is matched.
   */
  lemma ClosestIff(y: real, row: seq<real>, ids: seq<nat>, id: nat)
    requires Indexes(ids, row)
    ensures Closest(y, row, ids) == None <==> |ids| == 0
    ensures Closest(y, row, ids) == Some(id) <==> IsFirstClosest(y, row, ids, id)
  {
    ClosestIsFirstClosest(y, row, ids);
    if IsFirstClosest(y, row, ids, id) {
      FirstClosestIsUnique(y, row, ids, id, Closest(y, row, ids).value);
    }
  }

  /**
   * `dev <= threshold * sqrt(2)` for a non-negative deviation, with an
   * infinite threshold (None) accepting everything.
   */
  predicate WithinSqrt2(dev: real, threshold: Option<real>)
  {
    threshold.None? || (threshold.value >= 0.0 && dev * dev <= 2.0 * threshold.value * threshold.value)
  }

  /** WithinSqrt2 is exactly the comparison against threshold times the square root of two. */
  lemma WithinSqrt2Exact(dev: real, threshold: real, sqrt2: real)
    requires dev >= 0.0 && sqrt2 > 0.0 && sqrt2 * sqrt2 == 2.0
    ensures WithinSqrt2(dev, Some(threshold)) <==> dev <= threshold * sqrt2
  {
    var bound := threshold * sqrt2;
    assert bound * bound == 2.0 * threshold * threshold;
    if threshold >= 0.0 {
      assert bound >= 0.0;
      if dev <= bound {
        SquareMonotone(dev, bound);
      } else {
        SquareStrictlyMonotone(bound, dev);
      }
    } else {
      assert bound < 0.0;
    }
  }

  lemma SquareMonotone(a: real, b: real)
    requires 0.0 <= a <= b
    ensures a * a <= b * b
  {
    calc { a * a; <= a * b; <= b * b; }
  }

  lemma SquareStrictlyMonotone(a: real, b: real)
    requires 0.0 <= a < b
    ensures a * a < b * b
  {
    calc { a * a; <= a * b; < b * b; }
  }

  /**
   * getRows() and getColumns() of one table: row j, column k of the row
   * view is entry j of column k. The lemmas do not need it; it documents
   * how the two views of the ideal table relate.
   */
  ghost predicate SameTable(columns: seq<seq<real>>, rows: seq<seq<real>>)
  {
    && (forall k :: 0 <= k < |columns| ==> |columns[k]| == |rows|)
    && (forall j :: 0 <= j < |rows| ==> |rows[j]| == |columns|)
    && (forall j, k :: 0 <= j < |rows| && 0 <= k < |columns| && |columns[k]| == |rows| && |rows[j]| == |columns| ==>
          rows[j][k] == columns[k][j])
  }

  /**
   * What the assigner needs of its inputs so that no step of the original
   * fails except get_x_row: matched ids name value columns with a
   * threshold, and every ideal row has one value per column.
   */
  ghost predicate Assignable(training: seq<seq<real>>, idealColumns: seq<seq<real>>, idealRows: seq<seq<real>>, ids: seq<nat>)
  {
    && Measurable(training, idealColumns, ids)
    && (forall m :: 0 <= m < |ids| ==> 1 <= ids[m])
    && (forall j :: 0 <= j < |idealRows| ==> |idealRows[j]| == |idealColumns|)
  }

  /** The record for one test point whose ideal row is `row`, if that point is accepted. */
  function Record(training: seq<seq<real>>, idealColumns: seq<seq<real>>, ids: seq<nat>, p: Point, row: seq<real>)
    : Option<Assignment>
    requires Indexes(ids, row)
    requires Measurable(training, idealColumns, ids)
  {
    var best := Closest(p.y, row, ids);
    if best.Some?
       && WithinSqrt2(Dev(p.y, row, best.value), Threshold(Tail(training), idealColumns[best.value]))
    then Some(Assignment(p.x, p.y, Dev(p.y, row, best.value), best.value))
    else None
  }

  function Emitted(r: Option<Assignment>): seq<Assignment>
  {
    if r.Some? then [r.value] else []
  }

  /** One test row after the earlier ones: a lookup miss fails, otherwise the row's record, if any, is appended. */
  function Step(training: seq<seq<real>>, idealColumns: seq<seq<real>>, idealRows: seq<seq<real>>, ids: seq<nat>,
                done: Result<seq<Assignment>, AssignError>, p: Point): Result<seq<Assignment>, AssignError>
    requires Assignable(training, idealColumns, idealRows, ids)
  {
    match done
    case Failure(e) => Failure(e)
    case Success(out) =>
      match XRow(idealRows, p.x)
      case None => Failure(LookupMiss(p.x))
      case Some(row) => Success(out + Emitted(Record(training, idealColumns, ids, p, row)))
  }

  /** The test rows in order, one Step each, starting from no records. */
  function Assign(training: seq<seq<real>>, idealColumns: seq<seq<real>>, idealRows: seq<seq<real>>,
                  tests: seq<Point>, ids: seq<nat>): Result<seq<Assignment>, AssignError>
    requires Assignable(training, idealColumns, idealRows, ids)
    decreases |tests|
  {
    if |tests| == 0 then Success([])
    else Step(training, idealColumns, idealRows, ids,
              Assign(training, idealColumns, idealRows, tests[..|tests| - 1], ids), tests[|tests| - 1])
  }

  /** Two runs one after the other: the first failure, otherwise both outputs in order. */
  function Then(first: Result<seq<Assignment>, AssignError>, second: Result<seq<Assignment>, AssignError>)
    : Result<seq<Assignment>, AssignError>
  {
    match first
    case Failure(e) => Failure(e)
    case Success(a) =>
      match second
      case Failure(e) => Failure(e)
      case Success(b) => Success(a + b)
  }

  /** The unwrapped ids of a matcher result whose every entry is a match. */
  function Matched(best: seq<Option<nat>>): (ids: seq<nat>)
    requires forall m :: 0 <= m < |best| ==> best[m].Some?
    ensures |ids| == |best| && forall m :: 0 <= m < |best| ==> best[m] == Some(ids[m])
    decreases |best|
  {
    if |best| == 0 then [] else [best[0].value] + Matched(best[1..])
  }

  /**
   * The inner scan of assign_test_data for one test row: the first listed
   * matched id of smallest deviation from `y`, and that deviation.
   */
  method ClosestMatch(y: real, row: seq<real>, ids: seq<nat>) returns (bestMatch: Option<nat>, minDeviation: Option<real>)
    requires Indexes(ids, row)
    ensures bestMatch == Closest(y, row, ids)
    ensures bestMatch.None? <==> |ids| == 0
    ensures bestMatch.None? ==> minDeviation.None?
    ensures bestMatch.Some? ==> IsFirstClosest(y, row, ids, bestMatch.value)
                                && minDeviation == Some(Dev(y, row, bestMatch.value))
  {
    bestMatch, minDeviation := None, None;
    for m := 0 to |ids|
      invariant bestMatch == Closest(y, row, ids[..m])
      invariant bestMatch.None? ==> minDeviation.None?
      invariant bestMatch.Some? ==> minDeviation == Some(Dev(y, row, bestMatch.value))
    {
      assert ids[..m + 1][..m] == ids[..m];
      var funcId := ids[m];
      var idealVal := row[funcId];
      var dev := Abs(y - idealVal);
      if Below(dev, minDeviation) {
        bestMatch := Some(funcId);
        minDeviation := Some(dev);
      }
    }
    assert ids[..|ids|] == ids;
    ClosestIsFirstClosest(y, row, ids);
  }

  /**
   * The body of the test-row loop for a point whose ideal row was found:
   * the closest matched id, kept when within its threshold times sqrt(2).
   */
  method AssignPoint(training: seq<seq<real>>, idealColumns: seq<seq<real>>, ids: seq<nat>,
                     deviations: map<nat, Option<real>>, p: Point, row: seq<real>)
    returns (record: Option<Assignment>)
    requires Indexes(ids, row)
    requires Measurable(training, idealColumns, ids)
    requires forall m :: 0 <= m < |ids| ==> ids[m] in deviations
    requires forall id :: id in deviations && id < |idealColumns| && Fits(Tail(training), idealColumns[id]) ==>
               deviations[id] == Threshold(Tail(training), idealColumns[id])
    ensures record == Record(training, idealColumns, ids, p, row)
  {
    var bestMatch, minDeviation := ClosestMatch(p.y, row, ids);
    record := None;
    if bestMatch.Some? {
      var id := bestMatch.value;
      assert id in ids;
      if WithinSqrt2(minDeviation.value, deviations[id]) {
        record := Some(Assignment(p.x, p.y, minDeviation.value, id));
      }
    }
  }

  /**
   * assign_test_data without persistence: the thresholds of the matched
   * ids, then one pass over the test rows.
   */
  method AssignTestData(training: seq<seq<real>>, idealColumns: seq<seq<real>>, idealRows: seq<seq<real>>,
                        tests: seq<Point>, bestFunctions: seq<Option<nat>>)
    returns (results: Result<seq<Assignment>, AssignError>)
    requires forall m :: 0 <= m < |bestFunctions| ==> bestFunctions[m].Some?
    requires Assignable(training, idealColumns, idealRows, Matched(bestFunctions))
    ensures results == Assign(training, idealColumns, idealRows, tests, Matched(bestFunctions))
  {
    var ids := Matched(bestFunctions);
    var deviations := MaximumDeviations(training, idealColumns, ids);
    results := AssignRows(training, idealColumns, idealRows, tests, ids, deviations);
  }

  /** The test-row loop of assign_test_data, given the thresholds of the matched ids. */
  method AssignRows(training: seq<seq<real>>, idealColumns: seq<seq<real>>, idealRows: seq<seq<real>>,
                    tests: seq<Point>, ids: seq<nat>, deviations: map<nat, Option<real>>)
    returns (results: Result<seq<Assignment>, AssignError>)
    requires Assignable(training, idealColumns, idealRows, ids)
    requires forall m :: 0 <= m < |ids| ==> ids[m] in deviations
    requires forall id :: id in deviations && id < |idealColumns| && Fits(Tail(training), idealColumns[id]) ==>
               deviations[id] == Threshold(Tail(training), idealColumns[id])
    ensures results == Assign(training, idealColumns, idealRows, tests, ids)
  {
    var out: seq<Assignment> := [];
    for i := 0 to |tests|
      invariant Assign(training, idealColumns, idealRows, tests[..i], ids) == Success(out)
    {
      var x := tests[i].x;
      var idealXRow := XRow(idealRows, x);
      AssignNext(training, idealColumns, idealRows, tests, i, ids, out);
      if idealXRow.None? {
        return Failure(LookupMiss(x));
      }
      var record := AssignPoint(training, idealColumns, ids, deviations, tests[i], idealXRow.value);
      out := out + Emitted(record);
    }
    assert tests[..|tests|] == tests;
    results := Success(out);
  }

  /** What the loop needs of one more test row: a miss is the whole run's result, a hit extends the output. */
  lemma AssignNext(training: seq<seq<real>>, idealColumns: seq<seq<real>>, idealRows: seq<seq<real>>,
                   tests: seq<Point>, i: nat, ids: seq<nat>, out: seq<Assignment>)
    requires Assignable(training, idealColumns, idealRows, ids)
    requires i < |tests|
    requires Assign(training, idealColumns, idealRows, tests[..i], ids) == Success(out)
    ensures XRow(idealRows, tests[i].x).None? ==>
              Assign(training, idealColumns, idealRows, tests, ids) == Failure(LookupMiss(tests[i].x))
    ensures XRow(idealRows, tests[i].x).Some? ==>
              Assign(training, idealColumns, idealRows, tests[..i + 1], ids) ==
              Success(out + Emitted(Record(training, idealColumns, ids, tests[i], XRow(idealRows, tests[i].x).value)))
  {
    AssignStep(training, idealColumns, idealRows, tests, i, ids);
    if XRow(idealRows, tests[i].x).None? {
      AssignFailurePersists(training, idealColumns, idealRows, tests[..i + 1], tests[i + 1..], ids);
      assert tests[..i + 1] + tests[i + 1..] == tests;
    }
  }

  /** Assign over the prefix ending at test row i is one Step after the prefix before it. */
  lemma AssignStep(training: seq<seq<real>>, idealColumns: seq<seq<real>>, idealRows: seq<seq<real>>,
                   tests: seq<Point>, i: nat, ids: seq<nat>)
    requires Assignable(training, idealColumns, idealRows, ids)
    requires i < |tests|
    ensures Assign(training, idealColumns, idealRows, tests[..i + 1], ids) ==
            Step(training, idealColumns, idealRows, ids, Assign(training, idealColumns, idealRows, tests[..i], ids), tests[i])
  {
    assert tests[..i + 1][..i] == tests[..i];
  }

  /** Once a prefix of the test rows fails, every extension fails with the same error. */
  lemma {:induction false} AssignFailurePersists(training: seq<seq<real>>, idealColumns: seq<seq<real>>,
                                                 idealRows: seq<seq<real>>, ps: seq<Point>, qs: seq<Point>, ids: seq<nat>)
    requires Assignable(training, idealColumns, idealRows, ids)
    requires Assign(training, idealColumns, idealRows, ps, ids).Failure?
    ensures Assign(training, idealColumns, idealRows, ps + qs, ids) == Assign(training, idealColumns, idealRows, ps, ids)
    decreases |qs|
  {
    if |qs| == 0 {
      assert ps + qs == ps;
    } else {
      var qs' := qs[..|qs| - 1];
      AssignFailurePersists(training, idealColumns, idealRows, ps, qs', ids);
      assert (ps + qs)[..|ps + qs| - 1] == ps + qs';
      assert (ps + qs)[|ps + qs| - 1] == qs[|qs| - 1];
    }
  }

  /**
   * Acceptance for one looked-up row: a record exists exactly when some id is
   * matched and the closest one's deviation is within its threshold times
   * the square root of two; the record then carries the point, the first
   * closest id and its deviation.
   */
  lemma RecordAcceptance(training: seq<seq<real>>, idealColumns: seq<seq<real>>, ids: seq<nat>, p: Point, row: seq<real>)
    requires Indexes(ids, row)
    requires Measurable(training, idealColumns, ids)
    ensures Record(training, idealColumns, ids, p, row).Some? <==>
              |ids| > 0 && WithinSqrt2(Dev(p.y, row, Closest(p.y, row, ids).value),
                                       Threshold(Tail(training), idealColumns[Closest(p.y, row, ids).value]))
    ensures Record(training, idealColumns, ids, p, row).Some? ==>
              var a := Record(training, idealColumns, ids, p, row).value;
              && a.x == p.x && a.y == p.y
              && a.idealFunctionNo in ids
              && IsFirstClosest(p.y, row, ids, a.idealFunctionNo)
              && a.deltaY == Dev(p.y, row, a.idealFunctionNo)
              && (forall m :: 0 <= m < |ids| ==> a.deltaY <= Dev(p.y, row, ids[m]))
  {
    ClosestIsFirstClosest(p.y, row, ids);
    if |ids| > 0 {
      var i :| IsFirstClosestAt(p.y, row, ids, i) && ids[i] == Closest(p.y, row, ids).value;
    }
  }

  /** A Step after two runs is a Step after the second one. */
  lemma StepThen(training: seq<seq<real>>, idealColumns: seq<seq<real>>, idealRows: seq<seq<real>>, ids: seq<nat>,
                 first: Result<seq<Assignment>, AssignError>, second: Result<seq<Assignment>, AssignError>, p: Point)
    requires Assignable(training, idealColumns, idealRows, ids)
    ensures Step(training, idealColumns, idealRows, ids, Then(first, second), p) ==
            Then(first, Step(training, idealColumns, idealRows, ids, second, p))
  {
    if first.Success? && second.Success? && XRow(idealRows, p.x).Some? {
      var e := Emitted(Record(training, idealColumns, ids, p, XRow(idealRows, p.x).value));
      assert (first.value + second.value) + e == first.value + (second.value + e);
    }
  }

  /** Assigning two runs of test rows one after the other: the first error wins, otherwise outputs concatenate. */
  lemma {:induction false} AssignConcat(training: seq<seq<real>>, idealColumns: seq<seq<real>>,
                                        idealRows: seq<seq<real>>, ps: seq<Point>, qs: seq<Point>, ids: seq<nat>)
    requires Assignable(training, idealColumns, idealRows, ids)
    ensures Assign(training, idealColumns, idealRows, ps + qs, ids) ==
            Then(Assign(training, idealColumns, idealRows, ps, ids), Assign(training, idealColumns, idealRows, qs, ids))
    decreases |qs|
  {
    if |qs| == 0 {
      assert ps + qs == ps;
      if Assign(training, idealColumns, idealRows, ps, ids).Success? {
        var a := Assign(training, idealColumns, idealRows, ps, ids).value;
        assert a + [] == a;
      }
    } else {
      var n := |qs| - 1;
      AssignConcat(training, idealColumns, idealRows, ps, qs[..n], ids);
      assert (ps + qs)[..|ps + qs| - 1] == ps + qs[..n];
      assert (ps + qs)[|ps + qs| - 1] == qs[n];
      StepThen(training, idealColumns, idealRows, ids,
               Assign(training, idealColumns, idealRows, ps, ids), Assign(training, idealColumns, idealRows, qs[..n], ids), qs[n]);
    }
  }

  /** A single test row: a lookup miss fails, otherwise its record, if any, is the whole output. */
  lemma AssignSingle(training: seq<seq<real>>, idealColumns: seq<seq<real>>, idealRows: seq<seq<real>>,
                     p: Point, ids: seq<nat>)
    requires Assignable(training, idealColumns, idealRows, ids)
    ensures XRow(idealRows, p.x).None? ==> Assign(training, idealColumns, idealRows, [p], ids) == Failure(LookupMiss(p.x))
    ensures XRow(idealRows, p.x).Some? ==>
              Assign(training, idealColumns, idealRows, [p], ids) ==
              Success(Emitted(Record(training, idealColumns, ids, p, XRow(idealRows, p.x).value)))
  {
    assert [p][..0] == [];
    if XRow(idealRows, p.x).Some? {
      var e := Emitted(Record(training, idealColumns, ids, p, XRow(idealRows, p.x).value));
      assert [] + e == e;
    }
  }

  /**
   * Every successful output splits around any test row i into the output
   * of the earlier rows, at most one record for row i, and the output of
   * the later rows: records keep test-row order, one row at a time.
   */
  lemma AssignAt(training: seq<seq<real>>, idealColumns: seq<seq<real>>, idealRows: seq<seq<real>>,
                 tests: seq<Point>, i: nat, ids: seq<nat>)
    requires Assignable(training, idealColumns, idealRows, ids)
    requires Assign(training, idealColumns, idealRows, tests, ids).Success?
    requires i < |tests|
    ensures XRow(idealRows, tests[i].x).Some?
    ensures Assign(training, idealColumns, idealRows, tests[..i], ids).Success?
    ensures Assign(training, idealColumns, idealRows, tests[i + 1..], ids).Success?
    ensures Assign(training, idealColumns, idealRows, tests, ids).value ==
            Assign(training, idealColumns, idealRows, tests[..i], ids).value
            + Emitted(Record(training, idealColumns, ids, tests[i], XRow(idealRows, tests[i].x).value))
            + Assign(training, idealColumns, idealRows, tests[i + 1..], ids).value
  {
    var before, p, after := tests[..i], tests[i], tests[i + 1..];
    var left := Assign(training, idealColumns, idealRows, before, ids);
    var single := Assign(training, idealColumns, idealRows, [p], ids);
    var upTo := Assign(training, idealColumns, idealRows, before + [p], ids);
    var right := Assign(training, idealColumns, idealRows, after, ids);
    assert (before + [p]) + after == tests;
    AssignConcat(training, idealColumns, idealRows, before + [p], after, ids);
    AssignConcat(training, idealColumns, idealRows, before, [p], ids);
    AssignSingle(training, idealColumns, idealRows, p, ids);
    ThenSuccess(upTo, right);
    ThenSuccess(left, single);
  }

  /** Two runs together succeed iff both do, with the outputs concatenated. */
  lemma ThenSuccess(first: Result<seq<Assignment>, AssignError>, second: Result<seq<Assignment>, AssignError>)
    ensures Then(first, second).Success? <==> first.Success? && second.Success?
    ensures Then(first, second).Success? ==> Then(first, second).value == first.value + second.value
  {
  }

  /** A run emits at most one record per test row. */
  lemma {:induction false} AssignAtMostOnePerRow(training: seq<seq<real>>, idealColumns: seq<seq<real>>,
                                                 idealRows: seq<seq<real>>, tests: seq<Point>, ids: seq<nat>)
    requires Assignable(training, idealColumns, idealRows, ids)
    requires Assign(training, idealColumns, idealRows, tests, ids).Success?
    ensures |Assign(training, idealColumns, idealRows, tests, ids).value| <= |tests|
    decreases |tests|
  {
    if |tests| > 0 {
      AssignAtMostOnePerRow(training, idealColumns, idealRows, tests[..|tests| - 1], ids);
    }
  }

  /** Test row i's x has no ideal row. */
  ghost predicate Misses(idealRows: seq<seq<real>>, tests: seq<Point>, i: int)
  {
    0 <= i < |tests| && XRow(idealRows, tests[i].x).None?
  }

  /** Test row i is the first whose x has no ideal row. */
  ghost predicate FirstMiss(idealRows: seq<seq<real>>, tests: seq<Point>, i: int)
  {
    Misses(idealRows, tests, i) && forall j :: 0 <= j < i ==> !Misses(idealRows, tests, j)
  }

  /**
   * A run fails exactly when some test row's x has no ideal row, and then
   * with the x of the first such row.
   */
  lemma {:induction false} AssignFailsIffMiss(training: seq<seq<real>>, idealColumns: seq<seq<real>>,
                                              idealRows: seq<seq<real>>, tests: seq<Point>, ids: seq<nat>)
    requires Assignable(training, idealColumns, idealRows, ids)
    ensures Assign(training, idealColumns, idealRows, tests, ids).Failure? <==> exists i :: Misses(idealRows, tests, i)
    ensures Assign(training, idealColumns, idealRows, tests, ids).Failure? ==>
              exists i :: FirstMiss(idealRows, tests, i)
                          && Assign(training, idealColumns, idealRows, tests, ids).error == LookupMiss(tests[i].x)
    decreases |tests|
  {
    if |tests| > 0 {
      var n := |tests| - 1;
      var rp := Assign(training, idealColumns, idealRows, tests[..n], ids);
      AssignFailsIffMiss(training, idealColumns, idealRows, tests[..n], ids);
      StepOutcome(training, idealColumns, idealRows, ids, rp, tests[n]);
      if rp.Failure? {
        var i :| FirstMiss(idealRows, tests[..n], i) && rp.error == LookupMiss(tests[..n][i].x);
        FirstMissOfPrefix(idealRows, tests, n, i);
      } else {
        NoMissInPrefix(idealRows, tests, n);
      }
    }
  }

  /** The first miss of a prefix is the first miss of the whole run. */
  lemma FirstMissOfPrefix(idealRows: seq<seq<real>>, tests: seq<Point>, n: nat, i: int)
    requires n <= |tests|
    requires FirstMiss(idealRows, tests[..n], i)
    ensures FirstMiss(idealRows, tests, i) && tests[..n][i] == tests[i]
  {
    assert tests[..n][i] == tests[i];
    forall j | 0 <= j < i
      ensures !Misses(idealRows, tests, j)
    {
      assert tests[..n][j] == tests[j];
      assert !Misses(idealRows, tests[..n], j);
    }
  }

  /** A prefix of length n without misses: the run's first miss, if any, is at n or later. */
  lemma NoMissInPrefix(idealRows: seq<seq<real>>, tests: seq<Point>, n: nat)
    requires n < |tests|
    requires forall i :: !Misses(idealRows, tests[..n], i)
    ensures Misses(idealRows, tests, n) ==> FirstMiss(idealRows, tests, n)
    ensures !Misses(idealRows, tests, n) && n == |tests| - 1 ==> forall i :: !Misses(idealRows, tests, i)
  {
    forall j | 0 <= j < n
      ensures !Misses(idealRows, tests, j)
    {
      assert tests[..n][j] == tests[j];
      assert !Misses(idealRows, tests[..n], j);
    }
  }

  /** How one Step can fail: a failure stays, a miss on a successful run fails with that x, and nothing else fails. */
  lemma StepOutcome(training: seq<seq<real>>, idealColumns: seq<seq<real>>, idealRows: seq<seq<real>>, ids: seq<nat>,
                    done: Result<seq<Assignment>, AssignError>, p: Point)
    requires Assignable(training, idealColumns, idealRows, ids)
    ensures done.Failure? ==> Step(training, idealColumns, idealRows, ids, done, p) == done
    ensures done.Success? && XRow(idealRows, p.x).None? ==>
              Step(training, idealColumns, idealRows, ids, done, p) == Failure(LookupMiss(p.x))
    ensures done.Success? && XRow(idealRows, p.x).Some? ==> Step(training, idealColumns, idealRows, ids, done, p).Success?
  {
  }

  /**
   * Each emitted record is attributable: its x has an ideal row, its id is
   * matched and the first closest there, its Delta_Y is that deviation and
   * within the id's threshold times the square root of two.
   */
  ghost predicate Attributable(training: seq<seq<real>>, idealColumns: seq<seq<real>>, idealRows: seq<seq<real>>,
                               ids: seq<nat>, a: Assignment)
    requires Assignable(training, idealColumns, idealRows, ids)
  {
    && XRow(idealRows, a.x).Some?
    && a.idealFunctionNo in ids
    && IsFirstClosest(a.y, XRow(idealRows, a.x).value, ids, a.idealFunctionNo)
    && a.deltaY == Dev(a.y, XRow(idealRows, a.x).value, a.idealFunctionNo)
    && WithinSqrt2(a.deltaY, Threshold(Tail(training), idealColumns[a.idealFunctionNo]))
  }

  lemma {:induction false} AssignedRecordsSound(training: seq<seq<real>>, idealColumns: seq<seq<real>>,
                                                idealRows: seq<seq<real>>, tests: seq<Point>, ids: seq<nat>)
    requires Assignable(training, idealColumns, idealRows, ids)
    requires Assign(training, idealColumns, idealRows, tests, ids).Success?
    ensures forall a :: a in Assign(training, idealColumns, idealRows, tests, ids).value ==>
              Point(a.x, a.y) in tests && Attributable(training, idealColumns, idealRows, ids, a)
    decreases |tests|
  {
    if |tests| > 0 {
      var n := |tests| - 1;
      var p := tests[..n];
      AssignedRecordsSound(training, idealColumns, idealRows, p, ids);
      var row := XRow(idealRows, tests[n].x).value;
      RecordAcceptance(training, idealColumns, ids, tests[n], row);
      assert forall q :: q in p ==> q in tests;
    }
  }

  /**
   * The matcher's output can be handed to the assigner when every training
   * column found a match: the training columns come from one table (so
   * they share one length) and every ideal row has one value per column.
   */
  lemma MatchesAreAssignable(training: seq<seq<real>>, idealColumns: seq<seq<real>>, idealRows: seq<seq<real>>,
                             best: seq<Option<nat>>)
    requires |best| == |Tail(training)|
    requires forall k :: 0 <= k < |best| ==> best[k] == BestMatch(training[k + 1], idealColumns) && best[k].Some?
    requires forall k :: 0 <= k < |Tail(training)| ==> |Tail(training)[k]| == |Tail(training)[0]|
    requires forall j :: 0 <= j < |idealRows| ==> |idealRows[j]| == |idealColumns|
    ensures Assignable(training, idealColumns, idealRows, Matched(best))
  {
    var ids := Matched(best);
    forall m | 0 <= m < |ids|
      ensures 1 <= ids[m] < |idealColumns| && Fits(Tail(training), idealColumns[ids[m]])
    {
      BestMatchSomeIff(training[m + 1], idealColumns, ids[m]);
    }
  }
}
