/**
 * `classification_metrics_report`: global metrics, per-class metrics, the
 * confusion matrix and per-size metrics for parallel sequences of true labels,
 * predicted labels and sentence word counts.
 */
module Report {
  import opened Lex
  import opened Counting
  import opened Universe
  import opened Confusion
  import opened Ratios
  import opened Sizes

  datatype GlobalMetrics = GlobalMetrics(accuracy: Fraction, precisionMacro: real, recallMacro: real, f1Macro: real)

  datatype ClassRow = ClassRow(cls: string, precision: Fraction, recall: Fraction, f1: Fraction, support: nat)

  datatype MetricsReport = MetricsReport(
    global: GlobalMetrics,
    perClass: seq<ClassRow>,
    perSize: seq<SizeRow>,
    confusion: seq<seq<nat>>)

  /** The global row; its macro averages range over the observed labels whatever `labels` says. */
  function Global(yTrue: seq<string>, yPred: seq<string>): (g: GlobalMetrics)
    requires |yTrue| == |yPred| && |yTrue| > 0
    ensures g.accuracy.num == Matches(yTrue, yPred) && g.accuracy.den == |yTrue|
    ensures 0.0 <= g.precisionMacro <= 1.0 && 0.0 <= g.recallMacro <= 1.0 && 0.0 <= g.f1Macro <= 1.0
  {
    GlobalMetrics(Accuracy(yTrue, yPred), MacroPrecision(yTrue, yPred), MacroRecall(yTrue, yPred), MacroF1(yTrue, yPred))
  }

  /** One row per entry of `labels`, in that order. */
  function ClassRows(yTrue: seq<string>, yPred: seq<string>, labels: seq<string>): (rows: seq<ClassRow>)
    requires |yTrue| == |yPred|
    ensures |rows| == |labels|
    ensures forall i :: 0 <= i < |rows| ==> rows[i].cls == labels[i] && rows[i].support == Count(yTrue, labels[i])
    ensures forall i :: 0 <= i < |rows| ==> rows[i].precision.num <= rows[i].precision.den
    ensures forall i :: 0 <= i < |rows| ==> rows[i].recall.num <= rows[i].recall.den
    ensures forall i :: 0 <= i < |rows| ==> rows[i].f1.num <= rows[i].f1.den
    ensures forall i :: 0 <= i < |rows| ==>
              && rows[i].precision == Precision(yTrue, yPred, labels[i])
              && rows[i].recall == Recall(yTrue, yPred, labels[i])
              && rows[i].f1 == F1(yTrue, yPred, labels[i])
  {
    seq(|labels|, i requires 0 <= i < |labels| =>
      ClassRow(labels[i], Precision(yTrue, yPred, labels[i]), Recall(yTrue, yPred, labels[i]),
               F1(yTrue, yPred, labels[i]), Count(yTrue, labels[i])))
  }

  function Supports(rows: seq<ClassRow>): seq<nat> {
    seq(|rows|, i requires 0 <= i < |rows| => rows[i].support)
  }

  /** With a duplicate-free universe covering `y_true` the supports add up to the number of observations. */
  lemma SupportsSumToObservations(yTrue: seq<string>, yPred: seq<string>, labels: seq<string>)
    requires |yTrue| == |yPred|
    requires Distinct(labels) && forall y :: y in yTrue ==> y in labels
    ensures Sum(Supports(ClassRows(yTrue, yPred, labels))) == |yTrue|
  {
    SumOfCounts(Supports(ClassRows(yTrue, yPred, labels)), yTrue, labels);
    SumCountsCover(yTrue, labels);
  }

  method ClassificationMetricsReport(
    yTrue: seq<string>, yPred: seq<string>, nWords: seq<int>,
    labels: Option<seq<string>>, thresholds: (int, int))
    returns (report: MetricsReport)
    requires |yTrue| == |yPred| == |nWords| && |yTrue| > 0
    // global metrics
    ensures report.global == Global(yTrue, yPred)
    // per-class metrics over the resolved universe
    ensures report.perClass == ClassRows(yTrue, yPred, ResolveLabels(labels, yTrue, yPred))
    ensures labels.None? ==> Sum(Supports(report.perClass)) == |yTrue|
    // confusion matrix over the resolved universe
    ensures IsConfusionMatrix(report.confusion, ResolveLabels(labels, yTrue, yPred), yTrue, yPred)
    ensures labels.None? ==> RowSums(report.confusion) == |yTrue|
    ensures labels.None? ==> Trace(report.confusion) == Matches(yTrue, yPred)
    // per-size metrics
    ensures report.perSize == SizeRows(yTrue, yPred, Buckets(nWords, thresholds))
    ensures 1 <= |report.perSize| <= 3
    ensures forall g, h :: 0 <= g < h < |report.perSize| ==> Less(report.perSize[g].size, report.perSize[h].size)
    ensures forall g :: 0 <= g < |report.perSize| ==> report.perSize[g].size in Buckets(nWords, thresholds)
    ensures forall k :: 0 <= k < |nWords| ==>
              exists g :: 0 <= g < |report.perSize| && report.perSize[g].size == SizeOf(nWords[k], thresholds)
    ensures Sum(Denominators(report.perSize)) == |yTrue|
    ensures Sum(Numerators(report.perSize)) == Matches(yTrue, yPred)
  {
    var universe := ResolveLabels(labels, yTrue, yPred);
    var global := Global(yTrue, yPred);
    var perClass := ClassRows(yTrue, yPred, universe);
    var cm := ConfusionMatrix(universe, yTrue, yPred);

    var names := SizeLabels(nWords, thresholds);
    assert names == Buckets(nWords, thresholds);
    var perSize := SizeRows(yTrue, yPred, names);

    if labels.None? {
      SupportsSumToObservations(yTrue, yPred, universe);
      TotalIsObservations(cm, universe, yTrue, yPred);
      TraceIsMatches(cm, universe, yTrue, yPred);
    }
    GroupOrderIsAlphabetical(names);
    SizeAccuraciesSplitGlobal(yTrue, yPred, names);
    forall k | 0 <= k < |nWords|
      ensures exists g :: 0 <= g < |perSize| && perSize[g].size == SizeOf(nWords[k], thresholds)
    {
      assert names[k] == SizeOf(nWords[k], thresholds);
      var g :| 0 <= g < |perSize| && perSize[g].size == names[k];
    }
    report := MetricsReport(global, perClass, perSize, cm);
  }
}
