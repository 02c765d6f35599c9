/**
 * The matcher: for every training column after the x column, the id of the
 * ideal column of equal length with the smallest sum of squared errors,
 * the first such id winning ties.
 */
module Matcher {
  import opened Wrappers

  /** The columns of a table without column 0 (the x values), as `columns[1:]`. */
  function Tail(columns: seq<seq<real>>): (r: seq<seq<real>>)
    ensures |columns| == 0 ==> r == []
    ensures |columns| > 0 ==> |r| == |columns| - 1 && forall k :: 0 <= k < |r| ==> r[k] == columns[k + 1]
  {
    if |columns| == 0 then [] else columns[1..]
  }

  /** True when `e` is strictly below the running minimum `m`; None is infinity. */
  predicate Below(e: real, m: Option<real>)
  {
    m.None? || e < m.value
  }

  function Sq(d: real): real
  {
    d * d
  }

  /** Sum of the squared differences of t and f over the positions of t, summed left to right. */
  function SumSquaredError(t: seq<real>, f: seq<real>): real
    requires |t| <= |f|
    decreases |t|
  {
    if |t| == 0 then 0.0
    else SumSquaredError(t[..|t| - 1], f) + Sq(t[|t| - 1] - f[|t| - 1])
  }

  /** Ideal column `j` competes for training column `t`: it is not the x column and has the same length. */
  predicate Candidate(t: seq<real>, ideal: seq<seq<real>>, j: int)
  {
    1 <= j < |ideal| && |ideal[j]| == |t|
  }

  /**
   * The scan of ideal ids 1 .. hi-1 in increasing order, replacing the
   * current choice only on a strictly smaller error.
   */
  function ScanBest(t: seq<real>, ideal: seq<seq<real>>, hi: nat): (r: Option<nat>)
    requires hi <= |ideal|
    ensures r.Some? ==> Candidate(t, ideal, r.value) && r.value < hi
    decreases hi
  {
    if hi <= 1 then None
    else
      var prev := ScanBest(t, ideal, hi - 1);
      var id := hi - 1;
      if Candidate(t, ideal, id)
         && Below(SumSquaredError(t, ideal[id]),
                  if prev.None? then None else Some(SumSquaredError(t, ideal[prev.value])))
      then Some(id)
      else prev
  }

  /** The match of one training column against all ideal columns. */
  function BestMatch(t: seq<real>, ideal: seq<seq<real>>): Option<nat>
  {
    ScanBest(t, ideal, |ideal|)
  }

  /** No ideal column below `hi` can compete for `t`. */
  ghost predicate NoCandidateBelow(t: seq<real>, ideal: seq<seq<real>>, hi: nat)
  {
    forall j :: 1 <= j < hi ==> !Candidate(t, ideal, j)
  }

  /**
   * `id` is a candidate below `hi` whose error is at most that of every
   * candidate below `hi` and strictly less than that of every candidate
   * with a smaller id.
   */
  ghost predicate IsFirstMinimumBelow(t: seq<real>, ideal: seq<seq<real>>, hi: nat, id: nat)
  {
    && id < hi
    && Candidate(t, ideal, id)
    && forall j :: j < hi && Candidate(t, ideal, j) ==>
         && SumSquaredError(t, ideal[id]) <= SumSquaredError(t, ideal[j])
         && (j < id ==> SumSquaredError(t, ideal[id]) < SumSquaredError(t, ideal[j]))
  }

  ghost predicate IsFirstMinimum(t: seq<real>, ideal: seq<seq<real>>, id: nat)
  {
    IsFirstMinimumBelow(t, ideal, |ideal|, id)
  }

  lemma {:induction false} ScanBestIsFirstMinimum(t: seq<real>, ideal: seq<seq<real>>, hi: nat)
    requires hi <= |ideal|
    ensures ScanBest(t, ideal, hi).None? <==> NoCandidateBelow(t, ideal, hi)
    ensures ScanBest(t, ideal, hi).Some? ==> IsFirstMinimumBelow(t, ideal, hi, ScanBest(t, ideal, hi).value)
    decreases hi
  {
    if hi > 1 {
      ScanBestIsFirstMinimum(t, ideal, hi - 1);
    }
  }

  /** At most one id is a first minimum. */
  lemma FirstMinimumIsUnique(t: seq<real>, ideal: seq<seq<real>>, hi: nat, a: nat, b: nat)
    requires IsFirstMinimumBelow(t, ideal, hi, a) && IsFirstMinimumBelow(t, ideal, hi, b)
    ensures a == b
  {
  }

  /** The match is None exactly when no ideal column (after x) has the training column's length. */
  lemma BestMatchNoneIff(t: seq<real>, ideal: seq<seq<real>>)
    ensures BestMatch(t, ideal) == None <==> forall j :: 1 <= j < |ideal| ==> |ideal[j]| != |t|
  {
    ScanBestIsFirstMinimum(t, ideal, |ideal|);
    forall j | 1 <= j < |ideal|
      ensures Candidate(t, ideal, j) <==> |ideal[j]| == |t|
    {
    }
  }

  /**
   * The match is `Some(id)` exactly when `id` is an equal-length candidate
   * with minimal error that beats every smaller id strictly.
   */
  lemma BestMatchSomeIff(t: seq<real>, ideal: seq<seq<real>>, id: nat)
    ensures BestMatch(t, ideal) == Some(id) <==> IsFirstMinimum(t, ideal, id)
    ensures BestMatch(t, ideal) == Some(id) ==> 1 <= id < |ideal| && |ideal[id]| == |t|
  {
    ScanBestIsFirstMinimum(t, ideal, |ideal|);
    if IsFirstMinimum(t, ideal, id) {
      assert !NoCandidateBelow(t, ideal, |ideal|);
      FirstMinimumIsUnique(t, ideal, |ideal|, id, BestMatch(t, ideal).value);
    }
  }

  /**
   * One entry per training column after column 0, in input order, each
   * the first minimum of the squared error among equal-length ideal columns.
   */
  method FindBestMatchingFunctions(training: seq<seq<real>>, ideal: seq<seq<real>>)
    returns (bestFunctions: seq<Option<nat>>)
    ensures |bestFunctions| == |Tail(training)|
    ensures forall k :: 0 <= k < |bestFunctions| ==> bestFunctions[k] == BestMatch(training[k + 1], ideal)
  {
    bestFunctions := [];
    var columns := Tail(training);
    for c := 0 to |columns|
      invariant |bestFunctions| == c
      invariant forall k :: 0 <= k < c ==> bestFunctions[k] == BestMatch(columns[k], ideal)
    {
      var yTraining := columns[c];
      var minError: Option<real> := None;
      var bestFunctionId: Option<nat> := None;
      if |ideal| > 0 {
        for funcId := 1 to |ideal|
          invariant bestFunctionId == ScanBest(yTraining, ideal, funcId)
          invariant bestFunctionId.None? ==> minError.None?
          invariant bestFunctionId.Some? ==> minError == Some(SumSquaredError(yTraining, ideal[bestFunctionId.value]))
        {
          var yIdeal := ideal[funcId];
          if |yTraining| == |yIdeal| {
            var error := 0.0;
            for i := 0 to |yTraining|
              invariant error == SumSquaredError(yTraining[..i], yIdeal)
            {
              assert yTraining[..i + 1][..i] == yTraining[..i];
              error := error + Sq(yTraining[i] - yIdeal[i]);
            }
            assert yTraining[..|yTraining|] == yTraining;
            if Below(error, minError) {
              minError := Some(error);
              bestFunctionId := Some(funcId);
            }
          }
        }
      }
      bestFunctions := bestFunctions + [bestFunctionId];
    }
  }
}
