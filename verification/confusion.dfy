/**
 * The confusion matrix over a label list `labels`: cell (i, j) counts the
 * observations whose true label is `labels[i]` and whose predicted label is
 * `labels[j]`. It is filled the way the matrix routine the report calls fills
 * it: each label is mapped to an index through a dictionary built over
 * `labels` (so a label listed twice keeps its last position), and observations
 * whose true or predicted label has no index are dropped.
 */
module Confusion {
  import opened Counting
  import opened Universe

  /** No later entry of `labels` repeats `labels[i]`. */
  predicate IsLast(labels: seq<string>, i: int)
    requires 0 <= i < |labels|
  {
    forall k :: i < k < |labels| ==> labels[k] != labels[i]
  }

  /** The index the label-to-index dictionary assigns to `x`, if any. */
  function IndexOf(labels: seq<string>, x: string): (r: Option<nat>)
    ensures r.None? <==> x !in labels
    ensures r.Some? ==> r.value < |labels| && labels[r.value] == x && IsLast(labels, r.value)
  {
    if |labels| == 0 then None
    else if labels[|labels| - 1] == x then Some(|labels| - 1)
    else
      assert labels == labels[..|labels| - 1] + [labels[|labels| - 1]];
      IndexOf(labels[..|labels| - 1], x)
  }

  /** What cell (i, j) must hold. */
  function Cell(labels: seq<string>, yTrue: seq<string>, yPred: seq<string>, i: nat, j: nat): nat
    requires |yTrue| == |yPred|
    requires i < |labels| && j < |labels|
  {
    if IsLast(labels, i) && IsLast(labels, j) then PairCount(yTrue, yPred, labels[i], labels[j]) else 0
  }

  predicate IsConfusionMatrix(m: seq<seq<nat>>, labels: seq<string>, yTrue: seq<string>, yPred: seq<string>)
    requires |yTrue| == |yPred|
  {
    && |m| == |labels|
    && (forall i :: 0 <= i < |m| ==> |m[i]| == |labels|)
    && (forall i, j :: 0 <= i < |m| && 0 <= j < |m| ==> m[i][j] == Cell(labels, yTrue, yPred, i, j))
  }

  /** With a duplicate-free label list every cell is a plain pair count. */
  lemma DistinctCells(m: seq<seq<nat>>, labels: seq<string>, yTrue: seq<string>, yPred: seq<string>)
    requires |yTrue| == |yPred|
    requires IsConfusionMatrix(m, labels, yTrue, yPred) && Distinct(labels)
    ensures forall i, j :: 0 <= i < |m| && 0 <= j < |m| ==> m[i][j] == PairCount(yTrue, yPred, labels[i], labels[j])
  {
  }

  /** The pair counts of a prefix grow by the one observation appended to it. */
  lemma PairCountStep(yTrue: seq<string>, yPred: seq<string>, k: nat, a: string, b: string)
    requires |yTrue| == |yPred| && k < |yTrue|
    ensures PairCount(yTrue[..k + 1], yPred[..k + 1], a, b)
         == PairCount(yTrue[..k], yPred[..k], a, b) + (if yTrue[k] == a && yPred[k] == b then 1 else 0)
  {
    assert yTrue[..k + 1][..k] == yTrue[..k];
    assert yPred[..k + 1][..k] == yPred[..k];
  }

  /** The dictionary maps `x` to `i` exactly when `i` is the last position holding `x`. */
  lemma IndexOfIsLast(labels: seq<string>, x: string, i: nat)
    requires i < |labels|
    ensures IndexOf(labels, x) == Some(i) <==> labels[i] == x && IsLast(labels, i)
  {
    if labels[i] == x && IsLast(labels, i) {
      assert x in labels;
    }
  }

  /** Observation `k` adds one to cell (i, j) exactly when its labels map to i and j. */
  lemma CellStep(labels: seq<string>, yTrue: seq<string>, yPred: seq<string>, k: nat, i: nat, j: nat)
    requires |yTrue| == |yPred| && k < |yTrue|
    requires i < |labels| && j < |labels|
    ensures Cell(labels, yTrue[..k + 1], yPred[..k + 1], i, j)
         == Cell(labels, yTrue[..k], yPred[..k], i, j)
            + (if IndexOf(labels, yTrue[k]) == Some(i) && IndexOf(labels, yPred[k]) == Some(j) then 1 else 0)
  {
    PairCountStep(yTrue, yPred, k, labels[i], labels[j]);
    IndexOfIsLast(labels, yTrue[k], i);
    IndexOfIsLast(labels, yPred[k], j);
  }

  /** A single pass over the observations, incrementing one cell per observation. */
  method ConfusionMatrix(labels: seq<string>, yTrue: seq<string>, yPred: seq<string>) returns (m: seq<seq<nat>>)
    requires |yTrue| == |yPred|
    ensures IsConfusionMatrix(m, labels, yTrue, yPred)
  {
    var row := seq(|labels|, _ => 0);
    m := seq(|labels|, _ => row);
    var k := 0;
    while k < |yTrue|
      invariant 0 <= k <= |yTrue|
      invariant |m| == |labels|
      invariant forall i :: 0 <= i < |m| ==> |m[i]| == |labels|
      invariant forall i, j :: 0 <= i < |m| && 0 <= j < |m| ==> m[i][j] == Cell(labels, yTrue[..k], yPred[..k], i, j)
    {
      var ti, pj := IndexOf(labels, yTrue[k]), IndexOf(labels, yPred[k]);
      var before := m;
      if ti.Some? && pj.Some? {
        var i0, j0 := ti.value, pj.value;
        m := m[i0 := m[i0][j0 := m[i0][j0] + 1]];
      }
      forall i, j | 0 <= i < |m| && 0 <= j < |m|
        ensures m[i][j] == Cell(labels, yTrue[..k + 1], yPred[..k + 1], i, j)
      {
        assert m[i][j] == before[i][j] + (if ti == Some(i) && pj == Some(j) then 1 else 0);
        CellStep(labels, yTrue, yPred, k, i, j);
      }
      k := k + 1;
    }
    assert yTrue[..k] == yTrue && yPred[..k] == yPred;
  }

  function ColumnSum(m: seq<seq<nat>>, j: nat): nat
    requires forall i :: 0 <= i < |m| ==> j < |m[i]|
  {
    if |m| == 0 then 0 else ColumnSum(m[..|m| - 1], j) + m[|m| - 1][j]
  }

  function RowSums(m: seq<seq<nat>>): nat {
    if |m| == 0 then 0 else RowSums(m[..|m| - 1]) + Sum(m[|m| - 1])
  }

  function Trace(m: seq<seq<nat>>): nat
    requires forall i :: 0 <= i < |m| ==> |m[i]| == |m|
  {
    TraceUpTo(m, |m|)
  }

  function TraceUpTo(m: seq<seq<nat>>, n: nat): nat
    requires n <= |m|
    requires forall i :: 0 <= i < |m| ==> |m[i]| == |m|
  {
    if n == 0 then 0 else TraceUpTo(m, n - 1) + m[n - 1][n - 1]
  }

  /**
   * Row i sums to the support of `labels[i]` whenever the (duplicate-free)
   * label list covers every prediction.
   */
  lemma RowSumIsSupport(m: seq<seq<nat>>, labels: seq<string>, yTrue: seq<string>, yPred: seq<string>, i: nat)
    requires |yTrue| == |yPred|
    requires IsConfusionMatrix(m, labels, yTrue, yPred)
    requires Distinct(labels) && forall y :: y in yPred ==> y in labels
    requires i < |m|
    ensures Sum(m[i]) == Count(yTrue, labels[i])
  {
    var opposite := Where(yTrue, yPred, labels[i]);
    forall j | 0 <= j < |m[i]|
      ensures m[i][j] == Count(opposite, labels[j])
    {
      PairCountWhere(yTrue, yPred, labels[i], labels[j]);
    }
    SumOfCounts(m[i], opposite, labels);
    SumCountsCover(opposite, labels);
  }

  /** Column j sums to the number of predictions of `labels[j]` when the labels cover `y_true`. */
  lemma ColumnSumIsPredicted(m: seq<seq<nat>>, labels: seq<string>, yTrue: seq<string>, yPred: seq<string>, j: nat)
    requires |yTrue| == |yPred|
    requires IsConfusionMatrix(m, labels, yTrue, yPred)
    requires Distinct(labels) && forall y :: y in yTrue ==> y in labels
    requires j < |m|
    ensures ColumnSum(m, j) == Count(yPred, labels[j])
  {
    var opposite := Where(yPred, yTrue, labels[j]);
    var column := seq(|m|, i requires 0 <= i < |m| => m[i][j]);
    DistinctCells(m, labels, yTrue, yPred);
    forall i | 0 <= i < |m|
      ensures column[i] == Count(opposite, labels[i])
    {
      PairCountSwap(yTrue, yPred, labels[i], labels[j]);
      PairCountWhere(yPred, yTrue, labels[j], labels[i]);
    }
    SumOfCounts(column, opposite, labels);
    SumCountsCover(opposite, labels);
    ColumnIsSum(m, j, |m|);
    assert m[..|m|] == m;
  }

  lemma {:induction false} ColumnIsSum(m: seq<seq<nat>>, j: nat, n: nat)
    requires forall i :: 0 <= i < |m| ==> j < |m[i]|
    requires n <= |m|
    ensures ColumnSum(m[..n], j) == Sum(seq(n, i requires 0 <= i < n => m[i][j]))
  {
    if n > 0 {
      ColumnIsSum(m, j, n - 1);
      assert m[..n][..n - 1] == m[..n - 1];
      var c := seq(n, i requires 0 <= i < n => m[i][j]);
      assert c[..n - 1] == seq(n - 1, i requires 0 <= i < n - 1 => m[i][j]);
    }
  }

  /** With labels covering both sequences, the matrix accounts for every observation once. */
  lemma TotalIsObservations(m: seq<seq<nat>>, labels: seq<string>, yTrue: seq<string>, yPred: seq<string>)
    requires |yTrue| == |yPred|
    requires IsConfusionMatrix(m, labels, yTrue, yPred)
    requires Distinct(labels)
    requires forall y :: y in yTrue ==> y in labels
    requires forall y :: y in yPred ==> y in labels
    ensures RowSums(m) == |yTrue|
  {
    var supports := seq(|m|, i requires 0 <= i < |m| => Sum(m[i]));
    forall i | 0 <= i < |m|
      ensures supports[i] == Count(yTrue, labels[i])
    {
      RowSumIsSupport(m, labels, yTrue, yPred, i);
    }
    SumOfCounts(supports, yTrue, labels);
    SumCountsCover(yTrue, labels);
    RowSumsIsSum(m, |m|);
    assert m[..|m|] == m;
  }

  lemma {:induction false} RowSumsIsSum(m: seq<seq<nat>>, n: nat)
    requires n <= |m|
    ensures RowSums(m[..n]) == Sum(seq(n, i requires 0 <= i < n => Sum(m[i])))
  {
    if n > 0 {
      RowSumsIsSum(m, n - 1);
      assert m[..n][..n - 1] == m[..n - 1];
      var c := seq(n, i requires 0 <= i < n => Sum(m[i]));
      assert c[..n - 1] == seq(n - 1, i requires 0 <= i < n - 1 => Sum(m[i]));
    }
  }

  /**
   * The diagonal holds the correct predictions: with labels covering `y_true`
   * it sums to the number of indices where prediction and truth agree.
   */
  lemma TraceIsMatches(m: seq<seq<nat>>, labels: seq<string>, yTrue: seq<string>, yPred: seq<string>)
    requires |yTrue| == |yPred|
    requires IsConfusionMatrix(m, labels, yTrue, yPred)
    requires Distinct(labels) && forall y :: y in yTrue ==> y in labels
    ensures Trace(m) == Matches(yTrue, yPred)
  {
    var correct := Correct(yTrue, yPred, yTrue);
    var diagonal := seq(|m|, i requires 0 <= i < |m| => m[i][i]);
    forall i | 0 <= i < |m|
      ensures diagonal[i] == Count(correct, labels[i])
    {
      TruePositivesAreCorrect(yTrue, yPred, labels[i]);
    }
    SumOfCounts(diagonal, correct, labels);
    SumCountsCover(correct, labels);
    TraceIsSum(m, |m|);
  }

  lemma {:induction false} TraceIsSum(m: seq<seq<nat>>, n: nat)
    requires n <= |m|
    requires forall i :: 0 <= i < |m| ==> |m[i]| == |m|
    ensures TraceUpTo(m, n) == Sum(seq(n, i requires 0 <= i < n => m[i][i]))
  {
    if n > 0 {
      TraceIsSum(m, n - 1);
      var c := seq(n, i requires 0 <= i < n => m[i][i]);
      assert c[..n - 1] == seq(n - 1, i requires 0 <= i < n - 1 => m[i][i]);
    }
  }

  /** A label occurring in neither sequence has an all-zero row and column. */
  lemma AbsentLabelIsZero(m: seq<seq<nat>>, labels: seq<string>, yTrue: seq<string>, yPred: seq<string>, i: nat)
    requires |yTrue| == |yPred|
    requires IsConfusionMatrix(m, labels, yTrue, yPred)
    requires i < |m| && labels[i] !in yTrue && labels[i] !in yPred
    ensures forall j :: 0 <= j < |m| ==> m[i][j] == 0 && m[j][i] == 0
  {
  }
}
