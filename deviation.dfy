/**
 * The largest pointwise deviation between a training column and an ideal
 * column, and the per-id threshold: the smallest such maximum over the
 * training columns after x.
 */
module Deviation {
  import opened Wrappers
  import opened Matcher

  function Abs(d: real): real
  {
    if d < 0.0 then -d else d
  }

  /** Every column of `columns` is no longer than `f`, so `f` can be indexed at each of its positions. */
  ghost predicate Fits(columns: seq<seq<real>>, f: seq<real>)
  {
    forall k :: 0 <= k < |columns| ==> |columns[k]| <= |f|
  }

  /** The scan of positions left to right from -1, replacing on a strictly larger deviation. */
  function MaxDeviation(t: seq<real>, f: seq<real>): real
    requires |t| <= |f|
    decreases |t|
  {
    if |t| == 0 then -1.0
    else
      var m := MaxDeviation(t[..|t| - 1], f);
      var d := Abs(t[|t| - 1] - f[|t| - 1]);
      if d > m then d else m
  }

  /**
   * The result bounds every pointwise deviation and is one of them when
   * the series is non-empty; it is -1 for an empty series.
   */
  lemma {:induction false} MaxDeviationBounds(t: seq<real>, f: seq<real>)
    requires |t| <= |f|
    ensures |t| == 0 ==> MaxDeviation(t, f) == -1.0
    ensures forall i :: 0 <= i < |t| ==> Abs(t[i] - f[i]) <= MaxDeviation(t, f)
    ensures |t| > 0 ==> exists i :: 0 <= i < |t| && MaxDeviation(t, f) == Abs(t[i] - f[i])
    ensures |t| > 0 ==> MaxDeviation(t, f) >= 0.0
    decreases |t|
  {
    if |t| > 0 {
      var p := t[..|t| - 1];
      MaxDeviationBounds(p, f);
      assert forall i :: 0 <= i < |p| ==> p[i] == t[i];
      if |p| > 0 {
        var i :| 0 <= i < |p| && MaxDeviation(p, f) == Abs(p[i] - f[i]);
        assert MaxDeviation(p, f) == Abs(t[i] - f[i]);
      }
    }
  }

  /** get_maximum_deviation: the maximum of |t[i] - f[i]| over the positions of t, or -1 when t is empty. */
  method GetMaximumDeviation(trainingFunction: seq<real>, idealFunction: seq<real>) returns (maxDeviation: real)
    requires |trainingFunction| <= |idealFunction|
    ensures maxDeviation == MaxDeviation(trainingFunction, idealFunction)
    ensures |trainingFunction| == 0 ==> maxDeviation == -1.0
    ensures forall i :: 0 <= i < |trainingFunction| ==>
              Abs(trainingFunction[i] - idealFunction[i]) <= maxDeviation
    ensures |trainingFunction| > 0 ==>
              exists i :: 0 <= i < |trainingFunction| && maxDeviation == Abs(trainingFunction[i] - idealFunction[i])
  {
    maxDeviation := -1.0;
    for i := 0 to |trainingFunction|
      invariant maxDeviation == MaxDeviation(trainingFunction[..i], idealFunction)
    {
      assert trainingFunction[..i + 1][..i] == trainingFunction[..i];
      var trainingVal := trainingFunction[i];
      var idealVal := idealFunction[i];
      var deviation := Abs(trainingVal - idealVal);
      if deviation > maxDeviation {
        maxDeviation := deviation;
      }
    }
    assert trainingFunction[..|trainingFunction|] == trainingFunction;
    MaxDeviationBounds(trainingFunction, idealFunction);
  }

  /**
   * The scan over training columns, starting from infinity (None) and
   * replacing on a strictly smaller maximum deviation.
   */
  function Threshold(columns: seq<seq<real>>, f: seq<real>): Option<real>
    requires Fits(columns, f)
    decreases |columns|
  {
    if |columns| == 0 then None
    else
      var m := Threshold(columns[..|columns| - 1], f);
      var d := MaxDeviation(columns[|columns| - 1], f);
      if Below(d, m) then Some(d) else m
  }

  /**
   * The threshold is infinity exactly when there are no columns; otherwise
   * it is at most every column's maximum deviation and equal to one of them.
   */
  lemma {:induction false} ThresholdBounds(columns: seq<seq<real>>, f: seq<real>)
    requires Fits(columns, f)
    ensures Threshold(columns, f).None? <==> |columns| == 0
    ensures Threshold(columns, f).Some? ==>
              forall k :: 0 <= k < |columns| ==> Threshold(columns, f).value <= MaxDeviation(columns[k], f)
    ensures Threshold(columns, f).Some? ==>
              exists k :: 0 <= k < |columns| && Threshold(columns, f).value == MaxDeviation(columns[k], f)
    decreases |columns|
  {
    if |columns| > 0 {
      var p := columns[..|columns| - 1];
      ThresholdBounds(p, f);
      assert forall k :: 0 <= k < |p| ==> p[k] == columns[k];
      if |p| > 0 {
        var k :| 0 <= k < |p| && Threshold(p, f).value == MaxDeviation(p[k], f);
        assert Threshold(p, f).value == MaxDeviation(columns[k], f);
      }
    }
  }

  /** A threshold over non-empty training columns is never negative. */
  lemma ThresholdNonNegative(columns: seq<seq<real>>, f: seq<real>)
    requires Fits(columns, f)
    requires forall k :: 0 <= k < |columns| ==> |columns[k]| > 0
    ensures Threshold(columns, f).Some? ==> Threshold(columns, f).value >= 0.0
  {
    ThresholdBounds(columns, f);
    if |columns| > 0 {
      var k :| 0 <= k < |columns| && Threshold(columns, f).value == MaxDeviation(columns[k], f);
      MaxDeviationBounds(columns[k], f);
    }
  }

  /** The threshold does not depend on the order in which the training columns are scanned. */
  lemma ThresholdOrderIndependent(columns: seq<seq<real>>, other: seq<seq<real>>, f: seq<real>)
    requires Fits(columns, f)
    requires multiset(columns) == multiset(other)
    ensures Fits(other, f)
    ensures Threshold(columns, f) == Threshold(other, f)
  {
    forall k | 0 <= k < |other|
      ensures |other[k]| <= |f|
    {
      assert other[k] in multiset(columns);
    }
    assert |columns| == |multiset(columns)| == |other|;
    ThresholdBounds(columns, f);
    ThresholdBounds(other, f);
    if |columns| > 0 {
      var a := Threshold(columns, f).value;
      var b := Threshold(other, f).value;
      var i :| 0 <= i < |columns| && a == MaxDeviation(columns[i], f);
      var j :| 0 <= j < |other| && b == MaxDeviation(other[j], f);
      assert columns[i] in multiset(other);
      var j' :| 0 <= j' < |other| && other[j'] == columns[i];
      assert other[j] in multiset(columns);
      var i' :| 0 <= i' < |columns| && columns[i'] == other[j];
      assert b <= a && a <= b;
    }
  }

  /** Every matched id indexes an ideal column that the training columns after x fit into. */
  ghost predicate Measurable(training: seq<seq<real>>, ideal: seq<seq<real>>, ids: seq<nat>)
  {
    forall m :: 0 <= m < |ids| ==> ids[m] < |ideal| && Fits(Tail(training), ideal[ids[m]])
  }

  /**
   * The `deviations` dictionary of assign_test_data: one key per matched
   * id, mapped to that id's threshold over the training columns after x.
   */
  method MaximumDeviations(training: seq<seq<real>>, ideal: seq<seq<real>>, ids: seq<nat>)
    returns (deviations: map<nat, Option<real>>)
    requires Measurable(training, ideal, ids)
    ensures deviations.Keys == set m | 0 <= m < |ids| :: ids[m]
    ensures forall id :: id in deviations ==> id < |ideal| && Fits(Tail(training), ideal[id])
    ensures forall id :: id in deviations ==> deviations[id] == Threshold(Tail(training), ideal[id])
  {
    deviations := map[];
    var columns := Tail(training);
    for m := 0 to |ids|
      invariant deviations.Keys == set n | 0 <= n < m :: ids[n]
      invariant forall id :: id in deviations ==> id < |ideal| && Fits(columns, ideal[id])
      invariant forall id :: id in deviations ==> deviations[id] == Threshold(columns, ideal[id])
    {
      var funcId := ids[m];
      var minDeviation: Option<real> := None;
      for c := 0 to |columns|
        invariant minDeviation == Threshold(columns[..c], ideal[funcId])
      {
        assert columns[..c + 1][..c] == columns[..c];
        var dev := GetMaximumDeviation(columns[c], ideal[funcId]);
        if Below(dev, minDeviation) {
          minDeviation := Some(dev);
        }
      }
      assert columns[..|columns|] == columns;
      deviations := deviations[funcId := minDeviation];
    }
  }
}
