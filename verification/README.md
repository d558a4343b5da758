# Classification metrics report — a Dafny model

This project models `classification_metrics_report` from `utils.py` of the
language-detector repository. The function takes parallel lists of true labels,
predicted labels and sentence word counts, and returns four tables:

- global metrics: accuracy plus macro precision, recall and F1;
- per-class metrics: precision, recall, F1 and support for each label of the universe;
- a confusion matrix over the label universe;
- per-size metrics: the global metrics recomputed inside each word-count bucket
  ("small", "medium", "large").

Everything is modelled as pure counting over finite sequences. Labels are Dafny
strings, ordered as Python orders `str` values (`Lex.Less`, lexicographic by code
point). That one ordering yields both results that depend on order: the sorted
default universe, and the alphabetical order of the groups from `groupby`.

Modules, following the parts of the function:

- `Lex`: Python's string `<`, proved equal to the first-difference definition and to be a strict total order.
- `Counting`: occurrence counts, pair counts, agreement counts and the filters
  behind them. It also holds the lemma that a duplicate-free list covering a
  sequence counts each element exactly once.
- `Universe`: the label universe (`sorted(set(y_true) | set(y_pred))` or the
  caller's list).
- `Confusion`: the confusion matrix. It is built the way the matrix routine builds
  it: one pass over the observations, with each label mapped to its index through
  a dictionary. A repeated label therefore keeps its last position, and an
  observation whose label is outside the list is dropped. The module also proves
  the row, column, total and diagonal sums.
- `Ratios`: accuracy, precision, recall and F1 as exact `Fraction(num, den)`
  values, plus their macro means as Dafny reals. A zero denominator gives 0,
  which is the `zero_division=0` convention.
- `Sizes`: the bucketing loop, the `groupby` grouping and the per-size rows.
- `Report`: the whole function.

The bucketing is the inline loop at `utils.py:56-63`. The per-size rows come out in alphabetical key order ("large",
"medium", "small"), as the code produces them, and not in size order
(`Sizes.GroupOrderIsAlphabetical`).

## Model

| member | source | states |
|---|---|---|
| Lex.Less | utils.py:30 | Python's `str <`: a proper prefix sorts before the longer string, and no string sorts before itself |
| Lex.LessIsFirstDifference | utils.py:30 | `a < b` holds exactly when `a` is a proper prefix of `b` or the first differing character is smaller in `a`; this one order sorts the default universe and the `groupby` keys (utils.py:66) |
| Lex.LessTransitive | utils.py:30 | the string order is transitive |
| Lex.LessTotal | utils.py:30 | any two different strings are ordered one way or the other |
| Counting.Count | utils.py:47 | a support never exceeds the number of observations, and it is positive exactly when the label occurs in `y_true` |
| Counting.CountIsMultiplicity | utils.py:47 | the support of a label equals its multiplicity in the multiset of true labels |
| Counting.SumCountsCover | utils.py:47 | summing the occurrence counts over a duplicate-free list that covers a sequence gives the sequence's length |
| Counting.PairCount | utils.py:52 | the number of observations with true label a and predicted label b is at most the count of a in `y_true` and at most the count of b in `y_pred` |
| Counting.PairCountWhere | utils.py:52 | the pairs (a, b) are exactly the occurrences of b among the predictions made for observations whose true label is a |
| Counting.PairCountSwap | utils.py:52 | counting (a, b) pairs in (y_true, y_pred) equals counting (b, a) pairs in (y_pred, y_true) |
| Counting.Matches | utils.py:34 | the number of agreeing indices is at most the length, and equals it exactly when the two label sequences are equal |
| Counting.TruePositivesAreCorrect | utils.py:44-45 | the true positives of a class are the correctly predicted observations of that class |
| Counting.Where | utils.py:65-73 | selecting a column within one size group (`group["y_true"]`, `group["y_pred"]`) yields as many values as the group has observations, each taken from that column |
| Counting.WhereMatches | utils.py:65-70 | restricting both label sequences to one size group keeps exactly the agreements inside that group |
| Universe.SortedSet | utils.py:30 | `sorted(set(s))` is strictly ascending and contains exactly the values of `s` |
| Universe.SortedUnique | utils.py:30 | two strictly sorted sequences with the same elements are equal, so the sorted distinct values are uniquely determined |
| Universe.DefaultLabels | utils.py:29-30 | the default universe is strictly sorted, duplicate-free, and contains exactly the labels occurring in `y_true` or `y_pred` |
| Universe.DefaultLabelsUnique | utils.py:29-30 | any strictly sorted sequence with exactly the observed labels is the default universe |
| Universe.ResolveLabels | utils.py:29-30 | a supplied list (even an empty one) is used unchanged; only an omitted list is replaced by the sorted, duplicate-free union of observed labels |
| Confusion.IndexOf | utils.py:52 | the label-to-index lookup finds a label exactly when it is listed, and it returns that label's last position |
| Confusion.ConfusionMatrix | utils.py:52 | the single-pass matrix is square over the labels; cell (i, j) counts the observations with true label `labels[i]` and predicted label `labels[j]`, and a non-last duplicate position stays 0 |
| Confusion.DistinctCells | utils.py:52 | with a duplicate-free label list, every cell is exactly the pair count |
| Confusion.RowSumIsSupport | utils.py:47-52 | when the labels are duplicate-free and cover every prediction, row i sums to the support of `labels[i]` |
| Confusion.ColumnSumIsPredicted | utils.py:52 | when the labels are duplicate-free and cover `y_true`, column j sums to the number of times `labels[j]` was predicted |
| Confusion.TotalIsObservations | utils.py:52 | when the labels are duplicate-free and cover both sequences, the whole matrix sums to the number of observations |
| Confusion.TraceIsMatches | utils.py:34-52 | when the labels are duplicate-free and cover `y_true`, the diagonal sums to the accuracy numerator (the number of correct predictions) |
| Confusion.AbsentLabelIsZero | utils.py:52-53 | a listed label absent from both sequences has an all-zero row and column |
| Ratios.Accuracy | utils.py:34 | accuracy is correct/total, lies in [0, 1], and is 1 exactly when every prediction is correct |
| Ratios.Precision | utils.py:44 | precision is true positives over the predicted count and lies in [0, 1]; it is 0 when the class is never predicted |
| Ratios.Recall | utils.py:45 | recall is true positives over the support and lies in [0, 1]; it is 0 when the class never occurs in `y_true` |
| Ratios.F1 | utils.py:46 | the F1 count ratio lies in [0, 1] |
| Ratios.F1IsHarmonicMean | utils.py:46 | the F1 count ratio equals 2PR/(P+R), and it is 0 when precision and recall are both 0 |
| Ratios.HarmonicMeanOfFractions | utils.py:46 | for count ratios sharing a numerator, 2t/(a+b) is the harmonic mean of t/a and t/b |
| Ratios.Mean | utils.py:35-37 | a macro mean of proper ratios lies in [0, 1], and it is 1 when every class scores 1 |
| Ratios.MacroPrecision | utils.py:35 | macro precision, the mean over the observed labels, lies in [0, 1] |
| Ratios.MacroRecall | utils.py:36 | macro recall, the mean over the observed labels, lies in [0, 1] |
| Ratios.MacroF1 | utils.py:37 | macro F1, the mean over the observed labels, lies in [0, 1] |
| Ratios.PerfectPrediction | utils.py:34-37 | a perfect prediction has accuracy, macro precision, macro recall and macro F1 all equal to 1 |
| Ratios.PerfectClass | utils.py:44-46 | in a perfect prediction, every observed class has precision, recall and F1 equal to 1 |
| Sizes.SizeOf | utils.py:58-63 | exact boundaries: below t0 is small, t0..t1 inclusive is medium, anything else is large; with t0 <= t1, large means above t1; every count gets exactly one of the three names |
| Sizes.SizeOfMonotone | utils.py:57-63 | more words never put a sentence in a smaller bucket |
| Sizes.SizeLabels | utils.py:56-63 | the append loop gives entry k the bucket of `n_words[k]`, has the same length as `n_words`, and equals the closed-form bucket sequence `Sizes.Buckets` |
| Sizes.Buckets | utils.py:56-63 | the bucket sequence runs parallel to the word counts, entry k is the bucket of `n_words[k]`, and only the three size names occur |
| Sizes.Indices | utils.py:65-66 | a group's indices are exactly the observations in that bucket, in ascending order; their number is the bucket's count |
| Sizes.GroupIsItsIndices | utils.py:65-70 | the labels in a group are the labels at the group's indices, in order |
| Sizes.PresentInOrder | utils.py:66-69 | the occurring buckets listed large, medium, small form a strictly ascending sequence of occurring names |
| Sizes.GroupOrderIsAlphabetical | utils.py:66-69 | the groupby key order is exactly the occurring buckets in the order large, medium, small; there are at most three groups, and at least one for non-empty input |
| Sizes.GroupsPartition | utils.py:65-69 | the groups partition the indices: no group is empty, each index lies only in the group of its own bucket, and the group sizes sum to the input length |
| Sizes.GroupRow | utils.py:69-80 | a group's accuracy has the group's size as denominator and the group's correct predictions as numerator |
| Sizes.SizeRows | utils.py:65-80 | one row per bucket that occurs, each once, strictly ascending by size name; every observation's bucket has its row; a row's accuracy is (correct predictions in that bucket)/(observations in that bucket), and its macro precision, recall and F1 are computed over that bucket's observations only |
| Sizes.SizeAccuraciesSplitGlobal | utils.py:65-70 | the per-size accuracy denominators sum to the number of observations, and the numerators sum to the global number of correct predictions |
| Report.Global | utils.py:33-38 | global accuracy is correct/total; the macro scores lie in [0, 1] and average over the observed labels, whatever `labels` says |
| Report.ClassRows | utils.py:42-48 | one row per universe label, in universe order, with precision, recall and F1 equal to that label's `Ratios.Precision`, `Ratios.Recall` and `Ratios.F1` (each a proper ratio) and support equal to the label's count in `y_true` |
| Report.SupportsSumToObservations | utils.py:47 | with a duplicate-free universe covering `y_true`, the supports sum to `len(y_true)` |
| Report.ClassificationMetricsReport | utils.py:9-99 | the four tables over the resolved universe; for the default universe, supports, matrix total and matrix diagonal add up to the observations and the correct predictions; one to three size rows in alphabetical order covering every observation's bucket, whose accuracies split the global one |

## Left out

- The `print_report` console output (utils.py:84-92) is I/O.
- DataFrame construction and `to_string` rendering (utils.py:39, 49, 53, 82, 94-99) are replaced by Dafny datatypes.
- Floating-point rounding: every ratio is an exact fraction, and every macro mean is an exact real.
- Report.ClassificationMetricsReport: requires equal-length, non-empty inputs. When `y_true` and `y_pred` differ in length, `accuracy_score` at line 34 already raises. When only `n_words` differs, the DataFrame at line 65 raises. The metric routines' behaviour on empty input is outside this file.
- Report.ClassificationMetricsReport: the confusion-matrix routine raises an error for an explicit label list that is empty or shares no label with `y_true`. That validation belongs to the library, so the model returns the all-zero matrix instead.
- The `thresholds` default of `(7, 12)` (utils.py:14) is the constant `Sizes.DefaultThresholds`; the model has no optional parameters, so callers pass the pair explicitly.
- Labels are modelled as strings only, as the signature and docstring declare them (`List[str]`, utils.py:12, 22-23); mixed-type label lists, which Python cannot sort, are not modelled.
