/**
 * Bucketing sentences by word count and grouping the observations by bucket.
 * A count below the first threshold is "small", one up to and including the
 * second threshold is "medium", anything else is "large". The groups are those
 * of a pandas `groupby` on the bucket name: only buckets that occur, each
 * keeping its observations in input order, listed in ascending key order.
 */
module Sizes {
  import opened Lex
  import opened Counting
  import opened Universe
  import opened Ratios

  const SmallName: string := "small"
  const MediumName: string := "medium"
  const LargeName: string := "large"

  /** The word-count thresholds used when the caller gives none. */
  const DefaultThresholds: (int, int) := (7, 12)

  predicate IsSizeName(s: string) {
    s == SmallName || s == MediumName || s == LargeName
  }

  /** The bucket of a sentence of `n` words under `thresholds` = (t0, t1). */
  function SizeOf(n: int, thresholds: (int, int)): (s: string)
    ensures IsSizeName(s)
    ensures s == SmallName <==> n < thresholds.0
    ensures s == MediumName <==> thresholds.0 <= n <= thresholds.1
    ensures s == LargeName <==> thresholds.0 <= n && thresholds.1 < n
    ensures thresholds.0 <= thresholds.1 ==> (s == LargeName <==> n > thresholds.1)
  {
    if n < thresholds.0 then SmallName
    else if n <= thresholds.1 then MediumName
    else LargeName
  }

  /** Position of a bucket in size order: small, medium, large. */
  function Rank(s: string): nat {
    if s == SmallName then 0 else if s == MediumName then 1 else 2
  }

  /** More words never move a sentence into a smaller bucket. */
  lemma SizeOfMonotone(n: int, n': int, thresholds: (int, int))
    requires n <= n'
    ensures Rank(SizeOf(n, thresholds)) <= Rank(SizeOf(n', thresholds))
  {
  }

  /** The bucket of every sentence, as a sequence parallel to the word counts. */
  function Buckets(nWords: seq<int>, thresholds: (int, int)): (names: seq<string>)
    ensures |names| == |nWords|
    ensures forall y :: y in names ==> IsSizeName(y)
    ensures forall k :: 0 <= k < |nWords| ==> names[k] == SizeOf(nWords[k], thresholds)
  {
    seq(|nWords|, k requires 0 <= k < |nWords| => SizeOf(nWords[k], thresholds))
  }

  /** The loop that labels every sentence with its bucket. */
  method SizeLabels(nWords: seq<int>, thresholds: (int, int)) returns (names: seq<string>)
    ensures |names| == |nWords|
    ensures forall k :: 0 <= k < |nWords| ==> names[k] == SizeOf(nWords[k], thresholds)
    ensures names == Buckets(nWords, thresholds)
  {
    names := [];
    for k := 0 to |nWords|
      invariant |names| == k
      invariant forall i :: 0 <= i < k ==> names[i] == SizeOf(nWords[i], thresholds)
    {
      var n := nWords[k];
      if n < thresholds.0 {
        names := names + [SmallName];
      } else if n <= thresholds.1 {
        names := names + [MediumName];
      } else {
        names := names + [LargeName];
      }
    }
  }

  /** The observation indices whose bucket is `key`, in ascending order. */
  function Indices(names: seq<string>, key: string): (r: seq<nat>)
    ensures |r| == Count(names, key)
    ensures forall k: nat :: k in r <==> k < |names| && names[k] == key
    ensures forall i, j :: 0 <= i < j < |r| ==> r[i] < r[j]
  {
    if |names| == 0 then []
    else
      var n := |names| - 1;
      var prefix := Indices(names[..n], key);
      var r := prefix + (if names[n] == key then [n] else []);
      IndicesStep(names, key, prefix, r);
      r
  }

  /** Appending one observation extends the index list of its own bucket only. */
  lemma IndicesStep(names: seq<string>, key: string, prefix: seq<nat>, r: seq<nat>)
    requires |names| > 0
    requires |prefix| == Count(names[..|names| - 1], key)
    requires forall k: nat :: k in prefix <==> k < |names| - 1 && names[..|names| - 1][k] == key
    requires forall i, j :: 0 <= i < j < |prefix| ==> prefix[i] < prefix[j]
    requires r == prefix + (if names[|names| - 1] == key then [|names| - 1] else [])
    ensures |r| == Count(names, key)
    ensures forall k: nat :: k in r <==> k < |names| && names[k] == key
    ensures forall i, j :: 0 <= i < j < |r| ==> r[i] < r[j]
  {
    IndicesStepMembers(names, key, prefix, r);
    IndicesStepAscending(names, key, prefix, r);
  }

  /** After one more observation, the listed indices are exactly those carrying `key`. */
  lemma IndicesStepMembers(names: seq<string>, key: string, prefix: seq<nat>, r: seq<nat>)
    requires |names| > 0
    requires forall k: nat :: k in prefix <==> k < |names| - 1 && names[..|names| - 1][k] == key
    requires r == prefix + (if names[|names| - 1] == key then [|names| - 1] else [])
    ensures forall k: nat :: k in r <==> k < |names| && names[k] == key
  {
    forall k: nat
      ensures k in r <==> k < |names| && names[k] == key
    {
      IndicesStepMember(names, key, prefix, k);
    }
  }

  /** After one more observation, the listed indices are still ascending. */
  lemma IndicesStepAscending(names: seq<string>, key: string, prefix: seq<nat>, r: seq<nat>)
    requires |names| > 0
    requires forall k: nat :: k in prefix <==> k < |names| - 1 && names[..|names| - 1][k] == key
    requires forall i, j :: 0 <= i < j < |prefix| ==> prefix[i] < prefix[j]
    requires r == prefix + (if names[|names| - 1] == key then [|names| - 1] else [])
    ensures forall i, j :: 0 <= i < j < |r| ==> r[i] < r[j]
  {
    forall i, j | 0 <= i < j < |r|
      ensures r[i] < r[j]
    {
      IndicesStepOrder(names, key, prefix, i, j);
    }
  }

  /** After one more observation, an index is listed exactly when it carries `key`. */
  lemma IndicesStepMember(names: seq<string>, key: string, prefix: seq<nat>, k: nat)
    requires |names| > 0
    requires forall k: nat :: k in prefix <==> k < |names| - 1 && names[..|names| - 1][k] == key
    ensures var r := prefix + (if names[|names| - 1] == key then [|names| - 1] else []);
            k in r <==> k < |names| && names[k] == key
  {
    var n := |names| - 1;
    if k < n {
      assert names[..n][k] == names[k];
    }
  }

  /** After one more observation, the listed indices stay ascending. */
  lemma IndicesStepOrder(names: seq<string>, key: string, prefix: seq<nat>, i: int, j: int)
    requires |names| > 0
    requires forall k: nat :: k in prefix <==> k < |names| - 1 && names[..|names| - 1][k] == key
    requires forall i, j :: 0 <= i < j < |prefix| ==> prefix[i] < prefix[j]
    requires 0 <= i < j < |prefix| + (if names[|names| - 1] == key then 1 else 0)
    ensures var r := prefix + (if names[|names| - 1] == key then [|names| - 1] else []);
            r[i] < r[j]
  {
    var r := prefix + (if names[|names| - 1] == key then [|names| - 1] else []);
    assert prefix[i] in prefix;
    if j < |prefix| {
      assert r[i] == prefix[i] && r[j] == prefix[j];
    }
  }

  /** Entry i of the group `key` is the observation at the group's i-th index. */
  predicate SelectsAtIndices(names: seq<string>, vals: seq<string>, key: string)
    requires |names| == |vals|
  {
    forall i :: 0 <= i < |Indices(names, key)| ==>
      Indices(names, key)[i] < |vals| && Where(names, vals, key)[i] == vals[Indices(names, key)[i]]
  }

  /** The observations a group holds are those at its indices, in order. */
  lemma {:induction false} GroupIsItsIndices(names: seq<string>, vals: seq<string>, key: string)
    requires |names| == |vals|
    ensures SelectsAtIndices(names, vals, key)
  {
    if |names| > 0 {
      var n := |names| - 1;
      GroupIsItsIndices(names[..n], vals[..n], key);
      GroupIsItsIndicesStep(names, vals, key);
    }
  }

  /** The inductive step of `GroupIsItsIndices`: the property carries over from the prefix to the whole. */
  lemma GroupIsItsIndicesStep(names: seq<string>, vals: seq<string>, key: string)
    requires |names| == |vals| > 0
    requires SelectsAtIndices(names[..|names| - 1], vals[..|vals| - 1], key)
    ensures SelectsAtIndices(names, vals, key)
  {
    var n := |names| - 1;
    var idx', w' := Indices(names[..n], key), Where(names[..n], vals[..n], key);
    WhereSnoc(names, vals, key);
    assert Indices(names, key) == idx' + (if names[n] == key then [n] else []);
    SnocEntries(Indices(names, key), Where(names, vals, key), idx', w', vals, names[n] == key);
  }

  /** Entry-wise form of one snoc step on an index list and the values it selects. */
  lemma SnocEntries(idx: seq<nat>, w: seq<string>, idx': seq<nat>, w': seq<string>, vals: seq<string>, hit: bool)
    requires |vals| > 0
    requires |idx'| == |w'|
    requires forall i :: 0 <= i < |idx'| ==> idx'[i] < |vals| - 1 && w'[i] == vals[..|vals| - 1][idx'[i]]
    requires idx == idx' + (if hit then [|vals| - 1] else [])
    requires w == w' + (if hit then [vals[|vals| - 1]] else [])
    ensures forall i :: 0 <= i < |idx| ==> idx[i] < |vals| && w[i] == vals[idx[i]]
  {
    forall i | 0 <= i < |idx|
      ensures idx[i] < |vals| && w[i] == vals[idx[i]]
    {
      if i < |idx'| {
        assert idx[i] == idx'[i] && w[i] == w'[i];
        assert vals[..|vals| - 1][idx'[i]] == vals[idx'[i]];
      }
    }
  }

  /** The buckets that occur, in ascending (alphabetical) key order. */
  function PresentInOrder(names: seq<string>): (r: seq<string>)
    ensures StrictlySorted(r)
    ensures forall y :: y in r ==> y in names
  {
    assert Less(LargeName, MediumName) && Less(MediumName, SmallName) && Less(LargeName, SmallName);
    (if LargeName in names then [LargeName] else [])
    + (if MediumName in names then [MediumName] else [])
    + (if SmallName in names then [SmallName] else [])
  }

  /**
   * Grouping bucket names lists the groups alphabetically, "large" before
   * "medium" before "small", not in size order; there are at most three groups
   * and at least one when there is at least one observation.
   */
  lemma GroupOrderIsAlphabetical(names: seq<string>)
    requires forall y :: y in names ==> IsSizeName(y)
    ensures SortedSet(names) == PresentInOrder(names)
    ensures |SortedSet(names)| <= 3
    ensures |names| > 0 ==> |SortedSet(names)| >= 1
  {
    var present := PresentInOrder(names);
    assert forall y :: y in names ==> y in present;
    SortedUnique(SortedSet(names), present);
    assert |names| > 0 ==> names[0] in present;
  }

  /**
   * The groups partition the observation indices: no group is empty, every
   * index lies in the group of its own bucket, any group holding an index is
   * that group, and the group sizes add up to the number of observations.
   */
  lemma GroupsPartition(names: seq<string>)
    ensures Distinct(SortedSet(names))
    ensures forall g :: 0 <= g < |SortedSet(names)| ==> |Indices(names, SortedSet(names)[g])| > 0
    ensures forall k :: 0 <= k < |names| ==> names[k] in SortedSet(names) && k in Indices(names, names[k])
    ensures forall g: nat, k: nat :: g < |SortedSet(names)| && k in Indices(names, SortedSet(names)[g]) ==>
              k < |names| && SortedSet(names)[g] == names[k]
    ensures SumCounts(names, SortedSet(names)) == |names|
  {
    SortedIsDistinct(SortedSet(names));
    GroupsNonEmpty(names);
    EveryIndexInOwnGroup(names);
    GroupsHoldOnlyTheirOwn(names);
    GroupSizesSum(names);
  }

  /** The group sizes add up to the number of observations. */
  lemma GroupSizesSum(names: seq<string>)
    ensures SumCounts(names, SortedSet(names)) == |names|
  {
    var keys := SortedSet(names);
    SortedIsDistinct(keys);
    assert forall x :: x in names ==> x in keys;
    SumCountsCover(names, keys);
  }

  /** Every group key occurs, so no group is empty. */
  lemma GroupsNonEmpty(names: seq<string>)
    ensures forall g :: 0 <= g < |SortedSet(names)| ==> |Indices(names, SortedSet(names)[g])| > 0
  {
    var keys := SortedSet(names);
    forall g | 0 <= g < |keys|
      ensures |Indices(names, keys[g])| > 0
    {
      assert keys[g] in names;
    }
  }

  /** Every index lies in the group of its own bucket, which is a group key. */
  lemma EveryIndexInOwnGroup(names: seq<string>)
    ensures forall k :: 0 <= k < |names| ==> names[k] in SortedSet(names) && k in Indices(names, names[k])
  {
    forall k | 0 <= k < |names|
      ensures names[k] in SortedSet(names) && k in Indices(names, names[k])
    {
      assert names[k] in names;
    }
  }

  /** A group holds only indices of its own bucket. */
  lemma GroupsHoldOnlyTheirOwn(names: seq<string>)
    ensures forall g: nat, k: nat :: g < |SortedSet(names)| && k in Indices(names, SortedSet(names)[g]) ==>
              k < |names| && SortedSet(names)[g] == names[k]
  {
    var keys := SortedSet(names);
    forall g: nat, k: nat | g < |keys| && k in Indices(names, keys[g])
      ensures k < |names| && keys[g] == names[k]
    {
      var idx := Indices(names, keys[g]);
    }
  }

  /** One row of the per-size table. */
  datatype SizeRow = SizeRow(size: string, accuracy: Fraction, precisionMacro: real, recallMacro: real, f1Macro: real)

  /** The metrics of the group `key`, computed over that group's observations only. */
  function GroupRow(yTrue: seq<string>, yPred: seq<string>, names: seq<string>, key: string): (row: SizeRow)
    requires |yTrue| == |yPred| == |names|
    requires key in names
    ensures row.size == key
    ensures row.accuracy.den == Count(names, key)
    ensures row.accuracy.num == Count(Correct(yTrue, yPred, names), key)
  {
    var gt, gp := Where(names, yTrue, key), Where(names, yPred, key);
    WhereMatches(names, yTrue, yPred, key);
    SizeRow(key, Accuracy(gt, gp), MacroPrecision(gt, gp), MacroRecall(gt, gp), MacroF1(gt, gp))
  }

  /** What the rows built from the group keys say, one clause per promise. */
  lemma SizeRowsMeaning(yTrue: seq<string>, yPred: seq<string>, names: seq<string>, rows: seq<SizeRow>)
    requires |yTrue| == |yPred| == |names|
    requires |rows| == |SortedSet(names)|
    requires forall g :: 0 <= g < |rows| ==> rows[g] == GroupRow(yTrue, yPred, names, SortedSet(names)[g])
    ensures forall g :: 0 <= g < |rows| ==> rows[g].size == SortedSet(names)[g]
    ensures forall g, h :: 0 <= g < h < |rows| ==> Less(rows[g].size, rows[h].size)
    ensures forall g :: 0 <= g < |rows| ==> rows[g].size in names
    ensures forall k :: 0 <= k < |names| ==> exists g :: 0 <= g < |rows| && rows[g].size == names[k]
    ensures forall g :: 0 <= g < |rows| ==>
              && rows[g].accuracy.den == Count(names, rows[g].size)
              && rows[g].accuracy.num == Count(Correct(yTrue, yPred, names), rows[g].size)
    ensures forall g :: 0 <= g < |rows| ==>
              var gt, gp := Where(names, yTrue, rows[g].size), Where(names, yPred, rows[g].size);
              && rows[g].precisionMacro == MacroPrecision(gt, gp)
              && rows[g].recallMacro == MacroRecall(gt, gp)
              && rows[g].f1Macro == MacroF1(gt, gp)
  {
    var keys := SortedSet(names);
    assert forall g :: 0 <= g < |rows| ==> rows[g].size == keys[g];
    forall k | 0 <= k < |names|
      ensures exists g :: 0 <= g < |rows| && rows[g].size == names[k]
    {
      assert names[k] in keys;
      var g :| 0 <= g < |keys| && keys[g] == names[k];
      assert rows[g].size == names[k];
    }
  }

  /**
   * The per-size table: one row per bucket that occurs, each once, in
   * ascending key order, and every observation's bucket has its row. A row's
   * accuracy counts the observations of its bucket and the correct ones among
   * them, and its macro metrics are computed over that bucket only.
   */
  function SizeRows(yTrue: seq<string>, yPred: seq<string>, names: seq<string>): (rows: seq<SizeRow>)
    requires |yTrue| == |yPred| == |names|
    ensures |rows| == |SortedSet(names)|
    ensures forall g :: 0 <= g < |rows| ==> rows[g].size == SortedSet(names)[g]
    ensures forall g, h :: 0 <= g < h < |rows| ==> Less(rows[g].size, rows[h].size)
    ensures forall g :: 0 <= g < |rows| ==> rows[g].size in names
    ensures forall k :: 0 <= k < |names| ==> exists g :: 0 <= g < |rows| && rows[g].size == names[k]
    ensures forall g :: 0 <= g < |rows| ==>
              && rows[g].accuracy.den == Count(names, rows[g].size)
              && rows[g].accuracy.num == Count(Correct(yTrue, yPred, names), rows[g].size)
    ensures forall g :: 0 <= g < |rows| ==>
              var gt, gp := Where(names, yTrue, rows[g].size), Where(names, yPred, rows[g].size);
              && rows[g].precisionMacro == MacroPrecision(gt, gp)
              && rows[g].recallMacro == MacroRecall(gt, gp)
              && rows[g].f1Macro == MacroF1(gt, gp)
  {
    var keys := SortedSet(names);
    var rows := seq(|keys|, g requires 0 <= g < |keys| => GroupRow(yTrue, yPred, names, keys[g]));
    SizeRowsMeaning(yTrue, yPred, names, rows);
    rows
  }

  function Denominators(rows: seq<SizeRow>): seq<nat> {
    seq(|rows|, g requires 0 <= g < |rows| => rows[g].accuracy.den)
  }

  function Numerators(rows: seq<SizeRow>): seq<nat> {
    seq(|rows|, g requires 0 <= g < |rows| => rows[g].accuracy.num)
  }

  /**
   * The per-size accuracies split the global one: their denominators add up
   * to the number of observations and their numerators to the number of
   * correct predictions.
   */
  lemma SizeAccuraciesSplitGlobal(yTrue: seq<string>, yPred: seq<string>, names: seq<string>)
    requires |yTrue| == |yPred| == |names|
    ensures Sum(Denominators(SizeRows(yTrue, yPred, names))) == |yTrue|
    ensures Sum(Numerators(SizeRows(yTrue, yPred, names))) == Matches(yTrue, yPred)
  {
    var keys, rows := SortedSet(names), SizeRows(yTrue, yPred, names);
    SortedIsDistinct(keys);
    assert Sum(Denominators(rows)) == |yTrue| by {
      var dens := Denominators(rows);
      forall g | 0 <= g < |dens|
        ensures dens[g] == Count(names, keys[g])
      {
      }
      SumOfCounts(dens, names, keys);
      SumCountsCover(names, keys);
    }
    assert Sum(Numerators(rows)) == Matches(yTrue, yPred) by {
      var nums, correct := Numerators(rows), Correct(yTrue, yPred, names);
      forall g | 0 <= g < |nums|
        ensures nums[g] == Count(correct, keys[g])
      {
      }
      SumOfCounts(nums, correct, keys);
      SumCountsCover(correct, keys);
    }
  }

}
