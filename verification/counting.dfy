/**
 * Occurrence counting over finite sequences of observations. Everything the
 * report computes reduces to these counts: a support is a `Count`, a
 * confusion-matrix cell is a `PairCount`, an accuracy numerator is `Matches`.
 * Sequences are consumed from the end, as the report's loops append to lists.
 */
module Counting {

  /** Number of occurrences of `x` in `s`. */
  function Count<T(==)>(s: seq<T>, x: T): (c: nat)
    ensures c <= |s|
    ensures c > 0 <==> x in s
  {
    if |s| == 0 then 0
    else
      assert s == s[..|s| - 1] + [s[|s| - 1]];
      Count(s[..|s| - 1], x) + (if s[|s| - 1] == x then 1 else 0)
  }

  /** `Count` agrees with the multiplicity the multiset of `s` gives `x`. */
  lemma {:induction false} CountIsMultiplicity<T>(s: seq<T>, x: T)
    ensures Count(s, x) == multiset(s)[x]
  {
    if |s| > 0 {
      assert s == s[..|s| - 1] + [s[|s| - 1]];
      CountIsMultiplicity(s[..|s| - 1], x);
    }
  }

  lemma CountConcat<T>(a: seq<T>, b: seq<T>, x: T)
    ensures Count(a + b, x) == Count(a, x) + Count(b, x)
  {
    CountIsMultiplicity(a + b, x);
    CountIsMultiplicity(a, x);
    CountIsMultiplicity(b, x);
  }

  predicate Distinct<T(==)>(s: seq<T>) {
    forall i, j :: 0 <= i < j < |s| ==> s[i] != s[j]
  }

  /** In a duplicate-free sequence every member occurs exactly once. */
  lemma {:induction false} DistinctCountOne<T>(s: seq<T>, x: T)
    requires Distinct(s) && x in s
    ensures Count(s, x) == 1
  {
    var p := s[..|s| - 1];
    assert s == p + [s[|s| - 1]];
    if s[|s| - 1] == x {
      assert forall i :: 0 <= i < |p| ==> p[i] != x;
    } else {
      DistinctCountOne(p, x);
    }
  }

  /** The sum, over the entries `u` of `us`, of `Count(s, u)`. */
  function SumCounts<T(==)>(s: seq<T>, us: seq<T>): nat {
    if |us| == 0 then 0
    else SumCounts(s, us[..|us| - 1]) + Count(s, us[|us| - 1])
  }

  lemma {:induction false} SumCountsEmpty<T>(us: seq<T>)
    ensures SumCounts([], us) == 0
  {
    if |us| > 0 {
      SumCountsEmpty(us[..|us| - 1]);
    }
  }

  lemma {:induction false} SumCountsSingle<T>(x: T, us: seq<T>)
    ensures SumCounts([x], us) == Count(us, x)
  {
    if |us| > 0 {
      SumCountsSingle(x, us[..|us| - 1]);
      assert Count([x], us[|us| - 1]) == (if x == us[|us| - 1] then 1 else 0) by {
        assert [x][..0] == [];
      }
    }
  }

  lemma {:induction false} SumCountsConcat<T>(s: seq<T>, t: seq<T>, us: seq<T>)
    ensures SumCounts(s + t, us) == SumCounts(s, us) + SumCounts(t, us)
  {
    if |us| > 0 {
      SumCountsConcat(s, t, us[..|us| - 1]);
      CountConcat(s, t, us[|us| - 1]);
    }
  }

  /**
   * Counting every entry of a duplicate-free `us` that covers `s` counts each
   * element of `s` exactly once.
   */
  lemma {:induction false} SumCountsCover<T>(s: seq<T>, us: seq<T>)
    requires Distinct(us)
    requires forall y :: y in s ==> y in us
    ensures SumCounts(s, us) == |s|
  {
    if |s| == 0 {
      SumCountsEmpty(us);
    } else {
      var p, x := s[..|s| - 1], s[|s| - 1];
      assert s == p + [x];
      SumCountsCover(p, us);
      SumCountsConcat(p, [x], us);
      SumCountsSingle(x, us);
      DistinctCountOne(us, x);
      calc {
        SumCounts(s, us);
        SumCounts(p + [x], us);
        SumCounts(p, us) + SumCounts([x], us);
        |p| + 1;
      }
    }
  }

  /** The entries of `vals` whose parallel entry in `keys` is `key`, in order. */
  function Where<K(==), V(==)>(keys: seq<K>, vals: seq<V>, key: K): (w: seq<V>)
    requires |keys| == |vals|
    ensures |w| == Count(keys, key)
    ensures forall v :: v in w ==> v in vals
  {
    if |keys| == 0 then []
    else
      var n := |keys| - 1;
      assert vals == vals[..n] + [vals[n]];
      if keys[n] == key then Where(keys[..n], vals[..n], key) + [vals[n]] else Where(keys[..n], vals[..n], key)
  }

  /** Number of indices `k` with `xs[k] == a` and `ys[k] == b`. */
  function PairCount<T(==)>(xs: seq<T>, ys: seq<T>, a: T, b: T): (c: nat)
    requires |xs| == |ys|
    ensures c <= Count(xs, a) && c <= Count(ys, b)
  {
    if |xs| == 0 then 0
    else
      var n := |xs| - 1;
      PairCount(xs[..n], ys[..n], a, b) + (if xs[n] == a && ys[n] == b then 1 else 0)
  }

  /** The pairs with first component `a` are the entries of `ys` lying opposite an `a`. */
  lemma {:induction false} PairCountWhere(xs: seq<string>, ys: seq<string>, a: string, b: string)
    requires |xs| == |ys|
    ensures PairCount(xs, ys, a, b) == Count(Where(xs, ys, a), b)
  {
    if |xs| > 0 {
      var n := |xs| - 1;
      PairCountWhere(xs[..n], ys[..n], a, b);
      PairCountWhereStep(xs, ys, a, b);
    }
  }

  /** The inductive step of `PairCountWhere`: the property carries over from the prefix to the whole. */
  lemma PairCountWhereStep(xs: seq<string>, ys: seq<string>, a: string, b: string)
    requires |xs| == |ys| > 0
    requires PairCount(xs[..|xs| - 1], ys[..|ys| - 1], a, b) == Count(Where(xs[..|xs| - 1], ys[..|ys| - 1], a), b)
    ensures PairCount(xs, ys, a, b) == Count(Where(xs, ys, a), b)
  {
    var n := |xs| - 1;
    WhereSnoc(xs, ys, a);
    if xs[n] == a {
      CountConcat(Where(xs[..n], ys[..n], a), [ys[n]], b);
      CountSingle(ys[n], b);
    }
  }

  lemma {:induction false} PairCountSwap<T>(xs: seq<T>, ys: seq<T>, a: T, b: T)
    requires |xs| == |ys|
    ensures PairCount(xs, ys, a, b) == PairCount(ys, xs, b, a)
  {
    if |xs| > 0 {
      PairCountSwap(xs[..|xs| - 1], ys[..|ys| - 1], a, b);
    }
  }

  /** Number of indices at which `xs` and `ys` agree. */
  function Matches<T(==)>(xs: seq<T>, ys: seq<T>): (c: nat)
    requires |xs| == |ys|
    ensures c <= |xs|
    ensures c == |xs| <==> xs == ys
  {
    if |xs| == 0 then 0
    else
      var n := |xs| - 1;
      assert xs == xs[..n] + [xs[n]] && ys == ys[..n] + [ys[n]];
      Matches(xs[..n], ys[..n]) + (if xs[n] == ys[n] then 1 else 0)
  }

  /** The entries of `vals` at the indices where `xs` and `ys` agree, in order. */
  function Correct<T(==), V(==)>(xs: seq<T>, ys: seq<T>, vals: seq<V>): (w: seq<V>)
    requires |xs| == |ys| == |vals|
    ensures |w| == Matches(xs, ys)
    ensures forall v :: v in w ==> v in vals
  {
    if |xs| == 0 then []
    else
      var n := |xs| - 1;
      assert vals == vals[..n] + [vals[n]];
      if xs[n] == ys[n] then Correct(xs[..n], ys[..n], vals[..n]) + [vals[n]] else Correct(xs[..n], ys[..n], vals[..n])
  }

  /** The true positives of `a` are the correct observations labelled `a`. */
  lemma {:induction false} TruePositivesAreCorrect<T>(xs: seq<T>, ys: seq<T>, a: T)
    requires |xs| == |ys|
    ensures PairCount(xs, ys, a, a) == Count(Correct(xs, ys, xs), a)
  {
    if |xs| > 0 {
      var n := |xs| - 1;
      var c, tail := Correct(xs[..n], ys[..n], xs[..n]), if xs[n] == ys[n] then [xs[n]] else [];
      assert Correct(xs, ys, xs) == c + tail;
      TruePositivesAreCorrect(xs[..n], ys[..n], a);
      CountConcat(c, tail, a);
      assert Count([xs[n]], a) == (if xs[n] == a then 1 else 0) by {
        assert [xs[n]][..0] == [];
      }
      assert PairCount(xs, ys, a, a)
          == PairCount(xs[..n], ys[..n], a, a) + (if xs[n] == a && ys[n] == a then 1 else 0);
    }
  }

  /**
   * Restricting both label sequences to the observations keyed `key` keeps
   * exactly the agreements whose key is `key`.
   */
  lemma {:induction false} WhereMatches(keys: seq<string>, xs: seq<string>, ys: seq<string>, key: string)
    requires |keys| == |xs| == |ys|
    ensures Matches(Where(keys, xs, key), Where(keys, ys, key)) == Count(Correct(xs, ys, keys), key)
  {
    if |keys| > 0 {
      var n := |keys| - 1;
      WhereMatches(keys[..n], xs[..n], ys[..n], key);
      WhereMatchesStep(keys, xs, ys, key);
    }
  }

  /** Extending the observations by one adds one correct observation keyed `key` exactly when the new one is keyed `key` and agrees. */
  lemma CorrectCountSnoc(xs: seq<string>, ys: seq<string>, keys: seq<string>, key: string)
    requires |keys| == |xs| == |ys| > 0
    ensures var n := |keys| - 1;
            Count(Correct(xs, ys, keys), key)
            == Count(Correct(xs[..n], ys[..n], keys[..n]), key) + (if keys[n] == key && xs[n] == ys[n] then 1 else 0)
  {
    var n := |keys| - 1;
    var last: seq<string> := if xs[n] == ys[n] then [keys[n]] else [];
    CorrectSnoc(xs, ys, keys);
    CountConcat(Correct(xs[..n], ys[..n], keys[..n]), last, key);
    CountSingle(keys[n], key);
  }

  /** The inductive step of `WhereMatches`: the property carries over from the prefix to the whole. */
  lemma WhereMatchesStep(keys: seq<string>, xs: seq<string>, ys: seq<string>, key: string)
    requires |keys| == |xs| == |ys| > 0
    requires var n := |keys| - 1;
             Matches(Where(keys[..n], xs[..n], key), Where(keys[..n], ys[..n], key))
             == Count(Correct(xs[..n], ys[..n], keys[..n]), key)
    ensures Matches(Where(keys, xs, key), Where(keys, ys, key)) == Count(Correct(xs, ys, keys), key)
  {
    WhereMatchesSnoc(keys, xs, ys, key);
    CorrectCountSnoc(xs, ys, keys, key);
  }

  /** Extending the observations by one adds one agreement to group `key` exactly when the new one is keyed `key` and agrees. */
  lemma WhereMatchesSnoc(keys: seq<string>, xs: seq<string>, ys: seq<string>, key: string)
    requires |keys| == |xs| == |ys| > 0
    ensures var n := |keys| - 1;
            Matches(Where(keys, xs, key), Where(keys, ys, key))
            == Matches(Where(keys[..n], xs[..n], key), Where(keys[..n], ys[..n], key))
               + (if keys[n] == key && xs[n] == ys[n] then 1 else 0)
  {
    var n := |keys| - 1;
    WhereSnoc(keys, xs, key);
    WhereSnoc(keys, ys, key);
    MatchesGuardedSnoc(Where(keys, xs, key), Where(keys, ys, key),
                       Where(keys[..n], xs[..n], key), Where(keys[..n], ys[..n], key),
                       xs[n], ys[n], keys[n] == key);
  }

  /** Appending one pair only when `hit` holds adds one agreement exactly when it holds and the pair agrees. */
  lemma MatchesGuardedSnoc<T>(xs': seq<T>, ys': seq<T>, xs: seq<T>, ys: seq<T>, x: T, y: T, hit: bool)
    requires |xs| == |ys|
    requires xs' == xs + (if hit then [x] else [])
    requires ys' == ys + (if hit then [y] else [])
    ensures |xs'| == |ys'|
    ensures Matches(xs', ys') == Matches(xs, ys) + (if hit && x == y then 1 else 0)
  {
    if hit {
      MatchesSnoc(xs, ys, x, y);
    } else {
      assert xs' == xs && ys' == ys;
    }
  }

  /** `Where` on a non-empty sequence extends `Where` on its prefix by the last entry when it is keyed `key`. */
  lemma WhereSnoc<K, V>(keys: seq<K>, vals: seq<V>, key: K)
    requires |keys| == |vals| > 0
    ensures var n := |keys| - 1;
            Where(keys, vals, key) == Where(keys[..n], vals[..n], key) + (if keys[n] == key then [vals[n]] else [])
  {
  }

  /** `Correct` on a non-empty sequence extends `Correct` on its prefix by the last entry when it agrees. */
  lemma CorrectSnoc<T, V>(xs: seq<T>, ys: seq<T>, vals: seq<V>)
    requires |xs| == |ys| == |vals| > 0
    ensures var n := |xs| - 1;
            Correct(xs, ys, vals) == Correct(xs[..n], ys[..n], vals[..n]) + (if xs[n] == ys[n] then [vals[n]] else [])
  {
  }

  /** Appending one pair adds one agreement exactly when the pair agrees. */
  lemma MatchesSnoc<T>(a: seq<T>, b: seq<T>, x: T, y: T)
    requires |a| == |b|
    ensures Matches(a + [x], b + [y]) == Matches(a, b) + (if x == y then 1 else 0)
  {
    assert (a + [x])[..|a|] == a;
    assert (b + [y])[..|b|] == b;
  }

  /** A one-element sequence holds `key` once if it is that element, else never. */
  lemma CountSingle<T>(x: T, key: T)
    ensures Count([x], key) == (if x == key then 1 else 0)
  {
    assert [x][..0] == [];
  }

  /** Sum of a sequence of counts. */
  function Sum(row: seq<nat>): nat {
    if |row| == 0 then 0 else Sum(row[..|row| - 1]) + row[|row| - 1]
  }

  /** A row of counts of `labels` entries in `s` sums to `SumCounts`. */
  lemma {:induction false} SumOfCounts<T>(row: seq<nat>, s: seq<T>, labels: seq<T>)
    requires |row| == |labels|
    requires forall j :: 0 <= j < |row| ==> row[j] == Count(s, labels[j])
    ensures Sum(row) == SumCounts(s, labels)
  {
    if |row| > 0 {
      SumOfCounts(row[..|row| - 1], s, labels[..|labels| - 1]);
    }
  }

}
