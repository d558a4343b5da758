/**
 * Accuracy, precision, recall and F1 as exact count ratios. A ratio whose
 * denominator is zero is worth 0, the `zero_division=0` convention the report
 * asks for. Macro averages are unweighted means over the sorted union of the
 * observed labels, which is the label set the metric routines average over
 * when they are not given one.
 */
module Ratios {
  import opened Counting
  import opened Universe

  datatype Fraction = Fraction(num: nat, den: nat) {
    /** The ratio's value, 0 when the denominator is 0. */
    function Value(): real {
      if den == 0 then 0.0 else num as real / den as real
    }

    /** A ratio is never negative, and a proper one is at most 1. */
    lemma ValueBounds()
      ensures 0.0 <= Value()
      ensures num <= den ==> Value() <= 1.0
    {
      if den > 0 {
        var n, d := num as real, den as real;
        var q := n / d;
        assert q * d == n;
        if num <= den {
          assert (1.0 - q) * d == d - n;
        }
      }
    }

    lemma WholeIsOne()
      requires num == den > 0
      ensures Value() == 1.0
    {
      var d := den as real;
      assert d / d == 1.0;
    }

    /** A ratio with a positive denominator is 1 exactly when it is whole. */
    lemma OneIffWhole()
      requires den > 0
      ensures Value() == 1.0 <==> num == den
    {
      var n, d := num as real, den as real;
      if n / d == 1.0 {
        assert n == (n / d) * d;
      } else {
        assert n != d;
      }
    }
  }

  /** Fraction of indices at which prediction and truth agree. */
  function Accuracy(yTrue: seq<string>, yPred: seq<string>): (f: Fraction)
    requires |yTrue| == |yPred| && |yTrue| > 0
    ensures f.den == |yTrue| && f.num == Matches(yTrue, yPred)
    ensures 0.0 <= f.Value() <= 1.0
    ensures f.Value() == 1.0 <==> yTrue == yPred
  {
    var f := Fraction(Matches(yTrue, yPred), |yTrue|);
    f.ValueBounds();
    f.OneIffWhole();
    f
  }

  /** True positives of `cls` over the number of times it was predicted. */
  function Precision(yTrue: seq<string>, yPred: seq<string>, cls: string): (f: Fraction)
    requires |yTrue| == |yPred|
    ensures f.num == PairCount(yTrue, yPred, cls, cls) && f.den == Count(yPred, cls)
    ensures f.num <= f.den && 0.0 <= f.Value() <= 1.0
    ensures cls !in yPred ==> f.Value() == 0.0
  {
    var f := Fraction(PairCount(yTrue, yPred, cls, cls), Count(yPred, cls));
    f.ValueBounds();
    f
  }

  /** True positives of `cls` over its support. */
  function Recall(yTrue: seq<string>, yPred: seq<string>, cls: string): (f: Fraction)
    requires |yTrue| == |yPred|
    ensures f.num == PairCount(yTrue, yPred, cls, cls) && f.den == Count(yTrue, cls)
    ensures f.num <= f.den && 0.0 <= f.Value() <= 1.0
    ensures cls !in yTrue ==> f.Value() == 0.0
  {
    var f := Fraction(PairCount(yTrue, yPred, cls, cls), Count(yTrue, cls));
    f.ValueBounds();
    f
  }

  /** F1 in count form: twice the true positives over support plus predictions. */
  function F1(yTrue: seq<string>, yPred: seq<string>, cls: string): (f: Fraction)
    requires |yTrue| == |yPred|
    ensures f.num <= f.den && 0.0 <= f.Value() <= 1.0
  {
    var tp := PairCount(yTrue, yPred, cls, cls);
    var f := Fraction(2 * tp, Count(yTrue, cls) + Count(yPred, cls));
    f.ValueBounds();
    f
  }

  /**
   * The count form of F1 is the harmonic mean of precision and recall, and is
   * 0 when both are 0.
   */
  lemma F1IsHarmonicMean(yTrue: seq<string>, yPred: seq<string>, cls: string)
    requires |yTrue| == |yPred|
    ensures F1(yTrue, yPred, cls).Value() == HarmonicMean(Precision(yTrue, yPred, cls), Recall(yTrue, yPred, cls))
  {
    var tp := PairCount(yTrue, yPred, cls, cls);
    var pf := Fraction(tp, Count(yPred, cls));
    var rf := Fraction(tp, Count(yTrue, cls));
    var ff := Fraction(2 * tp, Count(yTrue, cls) + Count(yPred, cls));
    assert Precision(yTrue, yPred, cls) == pf;
    assert Recall(yTrue, yPred, cls) == rf;
    assert F1(yTrue, yPred, cls) == ff;
    HarmonicMeanOfFractions(pf, rf, ff);
  }

  /** 2pr / (p + r), or 0 when p + r is 0. */
  function HarmonicMean(pf: Fraction, rf: Fraction): real {
    var p, r := pf.Value(), rf.Value();
    if p + r == 0.0 then 0.0 else 2.0 * p * r / (p + r)
  }

  lemma HarmonicMeanOfFractions(pf: Fraction, rf: Fraction, ff: Fraction)
    requires pf.num == rf.num && pf.num <= pf.den && rf.num <= rf.den
    requires ff.num == 2 * pf.num && ff.den == pf.den + rf.den
    ensures ff.Value() == HarmonicMean(pf, rf)
  {
    if pf.num > 0 {
      var t, a, b := pf.num as real, pf.den as real, rf.den as real;
      assert ff.num as real == 2.0 * t && ff.den as real == a + b;
      HarmonicMeanOfRatios(t, a, b, pf.Value(), rf.Value(), ff.Value());
    }
  }

  /** For p = t/a and r = t/b: 2pr/(p+r) = 2t/(a+b). */
  lemma HarmonicMeanOfRatios(t: real, a: real, b: real, p: real, r: real, f: real)
    requires t > 0.0 && a > 0.0 && b > 0.0
    requires p == t / a && r == t / b && f == 2.0 * t / (a + b)
    ensures p + r > 0.0
    ensures f == 2.0 * p * r / (p + r)
  {
    assert p * a == t && r * b == t;
    assert p > 0.0 && r > 0.0;
    assert f * (a + b) == 2.0 * t;
    // f (p + r) = 2pr follows from multiplying both sides by ab
    assert (p + r) * (a * b) == t * (a + b) by {
      assert p * (a * b) == t * b;
      assert r * (a * b) == t * a;
    }
    assert f * (p + r) * (a * b) == f * t * (a + b);
    assert f * t * (a + b) == 2.0 * t * t;
    assert 2.0 * p * r * (a * b) == 2.0 * t * t by {
      assert (p * a) * (r * b) == t * t;
    }
    assert f * (p + r) == 2.0 * p * r;
  }

  function SumValues(fs: seq<Fraction>): real {
    if |fs| == 0 then 0.0 else SumValues(fs[..|fs| - 1]) + fs[|fs| - 1].Value()
  }

  /** Unweighted mean of the values of `fs`. */
  function Mean(fs: seq<Fraction>): (v: real)
    requires |fs| > 0
    ensures (forall i :: 0 <= i < |fs| ==> fs[i].num <= fs[i].den) ==> 0.0 <= v <= 1.0
    ensures (forall i :: 0 <= i < |fs| ==> fs[i].Value() == 1.0) ==> v == 1.0
  {
    SumValuesBounds(fs);
    SumValues(fs) / |fs| as real
  }

  lemma {:induction false} SumValuesBounds(fs: seq<Fraction>)
    ensures 0.0 <= SumValues(fs)
    ensures (forall i :: 0 <= i < |fs| ==> fs[i].num <= fs[i].den) ==> SumValues(fs) <= |fs| as real
    ensures (forall i :: 0 <= i < |fs| ==> fs[i].Value() == 1.0) ==> SumValues(fs) == |fs| as real
  {
    if |fs| > 0 {
      SumValuesBounds(fs[..|fs| - 1]);
      fs[|fs| - 1].ValueBounds();
    }
  }

  function Precisions(yTrue: seq<string>, yPred: seq<string>, labels: seq<string>): (fs: seq<Fraction>)
    requires |yTrue| == |yPred|
    ensures |fs| == |labels|
    ensures forall i :: 0 <= i < |labels| ==> fs[i] == Precision(yTrue, yPred, labels[i])
  {
    seq(|labels|, i requires 0 <= i < |labels| => Precision(yTrue, yPred, labels[i]))
  }

  function Recalls(yTrue: seq<string>, yPred: seq<string>, labels: seq<string>): (fs: seq<Fraction>)
    requires |yTrue| == |yPred|
    ensures |fs| == |labels|
    ensures forall i :: 0 <= i < |labels| ==> fs[i] == Recall(yTrue, yPred, labels[i])
  {
    seq(|labels|, i requires 0 <= i < |labels| => Recall(yTrue, yPred, labels[i]))
  }

  function F1s(yTrue: seq<string>, yPred: seq<string>, labels: seq<string>): (fs: seq<Fraction>)
    requires |yTrue| == |yPred|
    ensures |fs| == |labels|
    ensures forall i :: 0 <= i < |labels| ==> fs[i] == F1(yTrue, yPred, labels[i])
  {
    seq(|labels|, i requires 0 <= i < |labels| => F1(yTrue, yPred, labels[i]))
  }

  /** Macro precision over the observed labels. */
  function MacroPrecision(yTrue: seq<string>, yPred: seq<string>): (v: real)
    requires |yTrue| == |yPred| && |yTrue| > 0
    ensures 0.0 <= v <= 1.0
  {
    assert yTrue[0] in DefaultLabels(yTrue, yPred);
    Mean(Precisions(yTrue, yPred, DefaultLabels(yTrue, yPred)))
  }

  /** Macro recall over the observed labels. */
  function MacroRecall(yTrue: seq<string>, yPred: seq<string>): (v: real)
    requires |yTrue| == |yPred| && |yTrue| > 0
    ensures 0.0 <= v <= 1.0
  {
    assert yTrue[0] in DefaultLabels(yTrue, yPred);
    Mean(Recalls(yTrue, yPred, DefaultLabels(yTrue, yPred)))
  }

  /** Macro F1 over the observed labels. */
  function MacroF1(yTrue: seq<string>, yPred: seq<string>): (v: real)
    requires |yTrue| == |yPred| && |yTrue| > 0
    ensures 0.0 <= v <= 1.0
  {
    assert yTrue[0] in DefaultLabels(yTrue, yPred);
    Mean(F1s(yTrue, yPred, DefaultLabels(yTrue, yPred)))
  }

  /** A perfect prediction scores 1 on every global metric. */
  lemma PerfectPrediction(yTrue: seq<string>, yPred: seq<string>)
    requires |yTrue| == |yPred| && |yTrue| > 0
    requires yTrue == yPred
    ensures Accuracy(yTrue, yPred).Value() == 1.0
    ensures MacroPrecision(yTrue, yPred) == 1.0
    ensures MacroRecall(yTrue, yPred) == 1.0
    ensures MacroF1(yTrue, yPred) == 1.0
  {
    var labels := DefaultLabels(yTrue, yPred);
    var ps, rs, fs := Precisions(yTrue, yPred, labels), Recalls(yTrue, yPred, labels), F1s(yTrue, yPred, labels);
    forall i | 0 <= i < |labels|
      ensures ps[i].Value() == 1.0 && rs[i].Value() == 1.0 && fs[i].Value() == 1.0
    {
      PerfectClass(yTrue, labels[i]);
    }
  }

  /** Every observed class of a perfect prediction scores 1. */
  lemma PerfectClass(s: seq<string>, cls: string)
    requires cls in s
    ensures Precision(s, s, cls).Value() == 1.0
    ensures Recall(s, s, cls).Value() == 1.0
    ensures F1(s, s, cls).Value() == 1.0
  {
    PairCountDiagonal(s, cls);
    var n := Count(s, cls);
    Fraction(n, n).WholeIsOne();
    Fraction(2 * n, n + n).WholeIsOne();
  }

  /** Comparing a sequence with itself, every occurrence of `a` is a true positive. */
  lemma {:induction false} PairCountDiagonal(s: seq<string>, a: string)
    ensures PairCount(s, s, a, a) == Count(s, a)
  {
    if |s| > 0 {
      PairCountDiagonal(s[..|s| - 1], a);
    }
  }
}
