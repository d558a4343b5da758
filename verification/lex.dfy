/**
 * The ordering Python uses for `str` values: lexicographic by code point, where a
 * proper prefix sorts first. It decides both the order of the default label
 * universe (`sorted(...)`) and the order of the size groups (pandas `groupby`
 * sorts its keys).
 */
module Lex {

  /** `a < b` on Python strings. */
  predicate Less(a: string, b: string): (r: bool)
    ensures |a| < |b| && a == b[..|a|] ==> r
    ensures r ==> a != b
    decreases |a|
  {
    if |a| == 0 then |b| > 0
    else if |b| == 0 then false
    else if a[0] != b[0] then a[0] < b[0]
    else Less(a[1..], b[1..])
  }

  lemma {:induction false} LessIrreflexive(a: string)
    ensures !Less(a, a)
    decreases |a|
  {
    if |a| > 0 {
      LessIrreflexive(a[1..]);
    }
  }

  lemma {:induction false} LessTransitive(a: string, b: string, c: string)
    requires Less(a, b) && Less(b, c)
    ensures Less(a, c)
    decreases |a|
  {
    if |a| > 0 && a[0] == b[0] && b[0] == c[0] {
      LessTransitive(a[1..], b[1..], c[1..]);
    }
  }

  /** Any two different strings are ordered one way or the other. */
  lemma {:induction false} LessTotal(a: string, b: string)
    requires a != b
    ensures Less(a, b) || Less(b, a)
    decreases |a|
  {
    if |a| > 0 && |b| > 0 && a[0] == b[0] {
      assert a == [a[0]] + a[1..] && b == [b[0]] + b[1..];
      LessTotal(a[1..], b[1..]);
    }
  }

  lemma LessAsymmetric(a: string, b: string)
    requires Less(a, b)
    ensures !Less(b, a)
  {
    if Less(b, a) {
      LessTransitive(a, b, a);
      LessIrreflexive(a);
    }
  }

  /** Some position below both lengths holds a smaller character in `a`, after a common prefix. */
  predicate DiffersFirstBelow(a: string, b: string) {
    exists i :: 0 <= i < |a| && i < |b| && a[..i] == b[..i] && a[i] < b[i]
  }

  /**
   * `Less` is Python's string comparison: `a` is a proper prefix of `b`, or the
   * first position where they differ holds the smaller character in `a`.
   */
  lemma {:induction false} LessIsFirstDifference(a: string, b: string)
    ensures Less(a, b) <==> (|a| < |b| && a == b[..|a|]) || DiffersFirstBelow(a, b)
    decreases |a|
  {
    if |a| == 0 || |b| == 0 {
    } else if a[0] != b[0] {
      HeadsDiffer(a, b);
    } else {
      LessIsFirstDifference(a[1..], b[1..]);
      ProperPrefixTail(a, b);
      DiffersFirstBelowTail(a, b);
    }
  }

  /** When the first characters differ, only they decide whether the first difference favours `a`. */
  lemma HeadsDiffer(a: string, b: string)
    requires |a| > 0 && |b| > 0 && a[0] != b[0]
    ensures DiffersFirstBelow(a, b) <==> a[0] < b[0]
    ensures !(|a| < |b| && a == b[..|a|])
  {
    if a[0] < b[0] {
      assert a[..0] == b[..0];
    }
  }

  /** With equal first characters, `a` is a proper prefix of `b` exactly when its tail is one of `b`'s tail. */
  lemma ProperPrefixTail(a: string, b: string)
    requires |a| > 0 && |b| > 0 && a[0] == b[0]
    ensures (|a[1..]| < |b[1..]| && a[1..] == b[1..][..|a[1..]|]) <==> (|a| < |b| && a == b[..|a|])
  {
    if |a| < |b| && a == b[..|a|] {
      assert a[1..] == b[..|a|][1..];
    }
    if |a[1..]| < |b[1..]| && a[1..] == b[1..][..|a[1..]|] {
      assert a == [a[0]] + a[1..];
      assert b[..|a|] == [b[0]] + b[1..][..|a[1..]|];
    }
  }

  /** With equal first characters, the first difference favours `a` exactly when it does for the tails. */
  lemma DiffersFirstBelowTail(a: string, b: string)
    requires |a| > 0 && |b| > 0 && a[0] == b[0]
    ensures DiffersFirstBelow(a[1..], b[1..]) <==> DiffersFirstBelow(a, b)
  {
    if DiffersFirstBelow(a[1..], b[1..]) {
      var i :| 0 <= i < |a[1..]| && i < |b[1..]| && a[1..][..i] == b[1..][..i] && a[1..][i] < b[1..][i];
      WitnessShiftsUp(a, b, i);
    }
    if DiffersFirstBelow(a, b) {
      var i :| 0 <= i < |a| && i < |b| && a[..i] == b[..i] && a[i] < b[i];
      WitnessShiftsDown(a, b, i);
    }
  }

  /** A first difference at `i` in the tails is one at `i + 1` in the whole strings. */
  lemma WitnessShiftsUp(a: string, b: string, i: nat)
    requires |a| > 0 && |b| > 0 && a[0] == b[0]
    requires i < |a| - 1 && i < |b| - 1 && a[1..][..i] == b[1..][..i] && a[1..][i] < b[1..][i]
    ensures DiffersFirstBelow(a, b)
  {
    assert a[..i + 1] == [a[0]] + a[1..][..i] && b[..i + 1] == [b[0]] + b[1..][..i];
    assert a[i + 1] == a[1..][i] && b[i + 1] == b[1..][i];
  }

  /** With equal first characters, a first difference at `i` is one at `i - 1` in the tails. */
  lemma WitnessShiftsDown(a: string, b: string, i: nat)
    requires |a| > 0 && |b| > 0 && a[0] == b[0]
    requires i < |a| && i < |b| && a[..i] == b[..i] && a[i] < b[i]
    ensures DiffersFirstBelow(a[1..], b[1..])
  {
    assert i != 0;
    assert a[1..][..i - 1] == a[..i][1..] && b[1..][..i - 1] == b[..i][1..];
    assert a[1..][i - 1] == a[i] && b[1..][i - 1] == b[i];
  }
}
