# Function matching and test-point assignment

This project models the decision logic of the "Programming with Python" script. The script matches least-squares curves and classifies test points in three stages:

1. **Matcher** (`find_best_matching_functions`). Column 0 of the training table holds the x values and is skipped. For each other training column, the matcher scans the ideal columns 1 .. n-1. Only columns of equal length compete. It keeps the id with the smallest sum of squared errors. The update uses a strict `<`, so the first minimum wins. A column with no candidate gets `None`.
2. **Maximum deviation and thresholds** (`get_maximum_deviation` and the `deviations` dictionary of `assign_test_data`). The maximum deviation is the largest `|t[i] - f[i]|`, or -1 for an empty series. An id's threshold is the smallest maximum deviation between that ideal column and the training columns after x. The scan starts from infinity.
3. **Assignment** (the test-row loop of `assign_test_data`). Each test point `(x, y)` is looked up in the ideal table at exactly `x`. It goes to the matched id whose ideal value is closest to `y`, with the first-listed id winning ties. A record `{X, Y, Delta_Y, Ideal_Function_No}` is emitted only when `Delta_Y <= threshold * sqrt(2)`.

The tables are not read from a database. The model takes what the database calls return as parameters:
- `getColumns()` becomes a `seq<seq<real>>` of columns, column 0 being x.
- `getRows()` of the test table becomes a `seq<Point>`.
- `getRows()` of the ideal table becomes a `seq<seq<real>>` of rows, row[0] being x and row[k] the value of `y<k>`.
- `get_x_row` becomes `XRow`: the first row whose x equals the key, or `None`.

Modules, one per file:
- `Wrappers` (wrappers.dfy): `Option`, `Result`.
- `Matcher` (matcher.dfy): the matcher and its specification.
- `Deviation` (deviation.dfy): maximum deviation and thresholds.
- `Assigner` (assigner.dfy): the assigner and the properties of its output.
- `Scenario` (scenario.dfy): the unit-test data run through the model.

Infinity is represented as `Option<real>`, with `None` meaning infinity. `Below(e, m)` is the strict comparison `e < m` against such a value. The square root of two is not a real constant here. `WithinSqrt2(dev, t)` states `t >= 0 && dev * dev <= 2 * t * t`. Lemma `WithinSqrt2Exact` proves this is exactly `dev <= t * s` for every `s > 0` with `s * s == 2`, given `dev >= 0` (deviations are absolute values).

Each loop of the source is a `while`/`for` loop of a method. Each method is proved equal to a recursive specification function that scans in the same order with the same strict comparison: `ScanBest`, `MaxDeviation`, `Threshold`, `Closest`, `Assign`. Lemmas then characterise those functions declaratively (first argmin, max, min, filter).

Edge cases, as the code behaves:
- A threshold over zero training columns after x is infinity (`None`). It is not an error, and a point whose closest id has an infinite threshold is accepted.
- A threshold over an empty training column is -1, and a point whose closest id has that threshold is rejected. So a threshold is not always non-negative.
- In the unit-test ideal table (Programming_with_Python.py:483-486), id 2 is the column `[2, 5, 8]` and id 3 is `[3, 6, 9]`.
- In the source, the ideal table's row view (`get_x_row`) and its column view (`getColumns`, used for thresholds) come from one `Data` object. The model takes them as two parameters. The predicate `SameTable` states how they relate, and `Scenario.IdealTableScenario` shows it for the unit-test table. The lemmas hold for any two views.

## Model

| member | source | states |
|---|---|---|
| Matcher.FindBestMatchingFunctions | Programming_with_Python.py:257-282 | exactly one entry per training column after column 0, in input order; entry k is the match of training column k+1 |
| Matcher.ScanBestIsFirstMinimum | Programming_with_Python.py:272-280 | after scanning ids 1..hi-1 the choice is None iff no id below hi has the training column's length, otherwise an equal-length id whose error is at most every equal-length candidate's and strictly below every earlier candidate's |
| Matcher.BestMatchNoneIff | Programming_with_Python.py:270-281 | a training column's match is None iff no ideal column 1..n-1 has its length |
| Matcher.BestMatchSomeIff | Programming_with_Python.py:272-280 | the match is Some(id) iff id is the first minimum of the squared error among equal-length ideal columns; then 1 <= id < n and the lengths agree |
| Deviation.GetMaximumDeviation | Programming_with_Python.py:285-300 | the result bounds every \|t[i] - f[i]\|, equals one of them for a non-empty series, and is -1 for an empty one |
| Deviation.MaxDeviationBounds | Programming_with_Python.py:293-300 | the left-to-right scan from -1 is -1 on empty input, an upper bound of every pointwise deviation, attained at some index, and non-negative on non-empty input |
| Deviation.MaximumDeviations | Programming_with_Python.py:316-324 | the dictionary has exactly the matched ids as keys; each maps to its threshold over the training columns after x, so duplicate ids share one value |
| Deviation.ThresholdBounds | Programming_with_Python.py:318-324 | the threshold is infinity iff there are no training columns after x; otherwise it is at most each column's maximum deviation and equal to one of them |
| Deviation.ThresholdNonNegative | Programming_with_Python.py:318-324 | over non-empty training columns a finite threshold is at least 0 |
| Deviation.ThresholdOrderIndependent | Programming_with_Python.py:320-323 | the threshold is the same for any reordering of the training columns |
| Assigner.XRowIsFirstMatch | Programming_with_Python.py:173-178 | the lookup finds the first row whose x equals the key, and finds nothing iff no row has that x |
| Assigner.ClosestMatch | Programming_with_Python.py:329-337 | the running best_match/min_deviation pair ends at the first-listed matched id of smallest deviation and its deviation; None (infinity) iff no id is matched |
| Assigner.ClosestIsFirstClosest | Programming_with_Python.py:332-337 | the strict-< scan from infinity picks a position whose deviation is minimal and strictly below every earlier position's |
| Assigner.ClosestIff | Programming_with_Python.py:332-337 | the closest id is Some(id) iff id is the first-listed id of minimal deviation, and None iff the id list is empty |
| Assigner.WithinSqrt2Exact | Programming_with_Python.py:338 | for a non-negative deviation the squared comparison is exactly dev <= threshold * sqrt(2) |
| Assigner.RecordAcceptance | Programming_with_Python.py:329-339 | a looked-up test point yields a record iff some id is matched and the closest id's deviation is within its threshold times sqrt(2); the record carries X, Y, that id and Delta_Y = \|Y - ideal value\|, which is at most the deviation to every matched id |
| Assigner.AssignPoint | Programming_with_Python.py:329-339 | the record for one looked-up test point is Record: the closest id's record when its deviation is within that id's threshold times sqrt(2), otherwise none |
| Assigner.AssignTestData | Programming_with_Python.py:303-339 | the thresholds followed by one pass over the test rows compute the specification Assign: failure at the first x missing from the ideal table, otherwise the accepted records |
| Assigner.AssignRows | Programming_with_Python.py:326-339 | the test-row loop, given thresholds that agree with the specification, computes Assign over all test rows, returning at the first lookup miss |
| Assigner.AssignNext | Programming_with_Python.py:327-339 | (loop helper) after a successful prefix, a lookup miss at the next test row is the result of the whole run, and a hit extends the output by that row's record, if any |
| Assigner.AssignStep | Programming_with_Python.py:327-339 | (proof helper: unfolds Assign at a prefix) the output over the first i+1 test rows is one more step after the first i: failure stays, a lookup miss fails, otherwise the row's record, if any, is appended |
| Assigner.AssignFailurePersists | Programming_with_Python.py:331 | once a lookup miss fails a run, later test rows do not change the failure |
| Assigner.AssignConcat | Programming_with_Python.py:326-339 | assigning two runs of test rows one after the other gives the first failure, otherwise the concatenation of the two outputs |
| Assigner.AssignSingle | Programming_with_Python.py:327-339 | (proof helper for AssignAt) a single test row fails iff its x has no ideal row, and otherwise yields its record or nothing |
| Assigner.AssignAt | Programming_with_Python.py:326-339 | a successful output splits around any test row into the earlier rows' output, at most one record for that row and the later rows' output, so records keep test-row order |
| Assigner.AssignAtMostOnePerRow | Programming_with_Python.py:338-339 | a run emits no more records than there are test rows |
| Assigner.AssignFailsIffMiss | Programming_with_Python.py:327-331 | a run fails iff some test x has no ideal row, and then with the x of the first such row |
| Assigner.AssignedRecordsSound | Programming_with_Python.py:332-339 | every emitted record comes from a test point, names a matched id that is the first closest for that point, has Delta_Y equal to that deviation, and is within the id's threshold times sqrt(2) |
| Assigner.MatchesAreAssignable | Programming_with_Python.py:427-428 | when every training column found a match, over tables of consistent shape, the matcher's output meets the assigner's precondition |
| Scenario.IdealTableScenario | Programming_with_Python.py:483-486 | the rows and the columns the unit test expects of the ideal table are the same table: row j, column k is entry j of column k |
| Scenario.MatcherScenario | Programming_with_Python.py:513-517 | on the unit-test ideal table the two training columns match ideal functions 1 and 3 |
| Scenario.ThresholdScenario | Programming_with_Python.py:316-324 | on the scenario tables the thresholds of functions 1 and 3 are 0.2 and 0.5 |
| Scenario.AssignScenario | Programming_with_Python.py:530-538 | (1, 2.4) is assigned to 3 with Delta_Y 0.6, (3, 7.1) to 1 with Delta_Y 0.1, and (2, 5.0) is dropped |
| Scenario.AssignTestDataScenario | Programming_with_Python.py:534-538 | the matcher and assigner methods in sequence yield [1, 3] and exactly those two records |

## Left out

- Floating point. Values are exact `real`s, so the test's literals `0.6000000000000001` and `0.09999999999999964` appear as 0.6 and 0.1. NaN and infinite inputs are not modelled.
- The unit-test CSV files are not part of this model. The scenario uses the ideal table that the unit test asserts (Programming_with_Python.py:483-486). Its training table (x, [1.1, 4.2, 6.9], [3.5, 6.1, 8.8]) and test points ((1, 2.4), (2, 5.0), (3, 7.1)) are chosen to reproduce the expected outputs at lines 517 and 538.
- The `Data` classes, CSV reading and SQL queries (lines 72-211). Their results are parameters. `get_x_row` is the function `XRow`. SQL returns matching rows in no guaranteed order; the model takes the first in table order.
- The ORM record classes, the database and session setup, and `save_test_mappings` with its `unit_tests` destination flag. This is persistence. The call at lines 341-342, and with it `session`, `unit_tests` and `save_mappings`, is not modelled.
- `visualize_data` (plotting), the top-level script, `AppendedTestDatabaseException` and the unit-test harness itself. Only the harness's expected values are used, as scenarios.
- Assigner.AssignTestData: it requires every matcher entry to be a match with id in 1 .. n-1, so those degenerate inputs are excluded. In the source, a `None` or too-large id crashes at line 321 when a training column follows x. Any `None`, 0 or too-large id crashes at `getattr(..., 'y' + str(id))` (line 333) once a test row is looked up. With no test rows, the source returns `[]` for id 0, and for any such id when no training column follows x. The model does not cover those inputs.
- Assigner.AssignTestData: it requires every training column after x to be no longer than each matched ideal column, and every ideal row to have one value per column. Otherwise the source crashes: a longer training column raises an index error at line 296, and an ideal row without attribute `y<id>` raises an attribute error at line 333. The model does not represent those crashes.
- Assigner.AssignTestData: test rows are `(x, y)` points, taken from `row[0]` and `row[1]` (line 328). A test row with fewer than two values is not representable.
- Deviation.GetMaximumDeviation: it requires the ideal series to be at least as long as the training series. A shorter one makes the source raise at line 296.
- Re-reading the tables on every `getColumns()` call (lines 320-321) is modelled as reading them once. Their contents are the same during one run.
