/**
 * The label universe of the report: either the list the caller passes, or,
 * when it is omitted, `sorted(set(y_true) | set(y_pred))`.
 */
module Universe {
  import opened Lex
  import opened Counting

  datatype Option<T> = None | Some(value: T)

  /** Every earlier entry is strictly smaller than every later one. */
  predicate StrictlySorted(s: seq<string>) {
    forall i, j :: 0 <= i < j < |s| ==> Less(s[i], s[j])
  }

  lemma SortedIsDistinct(s: seq<string>)
    requires StrictlySorted(s)
    ensures Distinct(s)
  {
    forall i, j | 0 <= i < j < |s|
      ensures s[i] != s[j]
    {
      LessIrreflexive(s[i]);
    }
  }

  /** The head of a sorted sequence is below everything in its tail. */
  lemma SortedHead(s: seq<string>)
    requires StrictlySorted(s) && |s| > 0
    ensures StrictlySorted(s[1..])
    ensures forall y :: y in s[1..] ==> Less(s[0], y)
  {
    forall y | y in s[1..]
      ensures Less(s[0], y)
    {
      var k :| 0 <= k < |s[1..]| && s[1..][k] == y;
      assert s[k + 1] == y;
    }
  }

  lemma ConsSorted(h: string, t: seq<string>)
    requires StrictlySorted(t)
    requires forall y :: y in t ==> Less(h, y)
    ensures StrictlySorted([h] + t)
  {
    var r := [h] + t;
    forall i, j | 0 <= i < j < |r|
      ensures Less(r[i], r[j])
    {
      assert r[j] == t[j - 1];
      if i > 0 {
        assert r[i] == t[i - 1];
      }
    }
  }

  /** Inserts `x` into a strictly sorted sequence unless it is already there. */
  function Insert(s: seq<string>, x: string): (r: seq<string>)
    requires StrictlySorted(s)
    ensures StrictlySorted(r)
    ensures forall y :: y in r <==> y in s || y == x
    decreases |s|
  {
    if |s| == 0 then [x]
    else if x == s[0] then s
    else if Less(x, s[0]) then
      SortedHead(s);
      BelowHeadBelowAll(x, s);
      ConsSorted(x, s);
      [x] + s
    else
      LessTotal(x, s[0]);
      SortedHead(s);
      var rest := Insert(s[1..], x);
      assert s == [s[0]] + s[1..];
      ConsSorted(s[0], rest);
      [s[0]] + rest
  }

  lemma BelowHeadBelowAll(x: string, s: seq<string>)
    requires StrictlySorted(s) && |s| > 0 && Less(x, s[0])
    ensures forall y :: y in s ==> Less(x, y)
  {
    SortedHead(s);
    forall y | y in s
      ensures Less(x, y)
    {
      if y != s[0] {
        assert y in s[1..] by {
          assert s == [s[0]] + s[1..];
        }
        LessTransitive(x, s[0], y);
      }
    }
  }

  /** `sorted(set(s))`: the distinct values of `s` in ascending order. */
  function SortedSet(s: seq<string>): (r: seq<string>)
    ensures StrictlySorted(r)
    ensures forall y :: y in r <==> y in s
  {
    if |s| == 0 then []
    else
      assert s == s[..|s| - 1] + [s[|s| - 1]];
      Insert(SortedSet(s[..|s| - 1]), s[|s| - 1])
  }

  /**
   * A strictly sorted sequence is determined by its set of elements, so
   * `SortedSet` is the only possible answer to "sorted and duplicate-free".
   */
  lemma {:induction false} SortedUnique(a: seq<string>, b: seq<string>)
    requires StrictlySorted(a) && StrictlySorted(b)
    requires forall y :: y in a <==> y in b
    ensures a == b
    decreases |a|
  {
    assert |b| > 0 ==> b[0] in b;
    if |a| > 0 {
      assert a[0] in b;
      assert |b| > 0;
      assert b[0] in a;
      SortedHead(a);
      SortedHead(b);
      assert a == [a[0]] + a[1..] && b == [b[0]] + b[1..];
      if a[0] != b[0] {
        assert a[0] in b[1..];
        assert b[0] in a[1..];
        LessAsymmetric(b[0], a[0]);
        assert false;
      }
      forall y
        ensures y in a[1..] <==> y in b[1..]
      {
        LessIrreflexive(a[0]);
        if y in a[1..] {
          assert Less(a[0], y) && y != a[0] && y in b;
        }
        if y in b[1..] {
          assert Less(b[0], y) && y != b[0] && y in a;
        }
      }
      SortedUnique(a[1..], b[1..]);
    }
  }

  /** The universe used when the caller supplies no labels. */
  function DefaultLabels(yTrue: seq<string>, yPred: seq<string>): (r: seq<string>)
    ensures StrictlySorted(r) && Distinct(r)
    ensures forall y :: y in r <==> y in yTrue || y in yPred
  {
    var r := SortedSet(yTrue + yPred);
    SortedIsDistinct(r);
    r
  }

  /**
   * Any strictly sorted sequence holding exactly the observed labels is the
   * default universe: it is fixed by the observations alone.
   */
  lemma DefaultLabelsUnique(yTrue: seq<string>, yPred: seq<string>, other: seq<string>)
    requires StrictlySorted(other)
    requires forall y :: y in other <==> y in yTrue || y in yPred
    ensures other == DefaultLabels(yTrue, yPred)
  {
    SortedUnique(other, DefaultLabels(yTrue, yPred));
  }

  /** `labels` when given, the default universe otherwise (an explicit empty list is kept). */
  function ResolveLabels(labels: Option<seq<string>>, yTrue: seq<string>, yPred: seq<string>): (r: seq<string>)
    ensures labels.Some? ==> r == labels.value
    ensures labels.None? ==> StrictlySorted(r) && Distinct(r)
    ensures labels.None? ==> forall y :: y in r <==> y in yTrue || y in yPred
  {
    match labels
    case Some(given) => given
    case None => DefaultLabels(yTrue, yPred)
  }
}
