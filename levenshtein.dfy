/** The edit distance of `src/utils.py`: a two-row Wagner-Fischer dynamic program. */
module Levenshtein {

  function Min3(a: nat, b: nat, c: nat): (m: nat)
    ensures m <= a && m <= b && m <= c
    ensures m == a || m == b || m == c
  {
    if a <= b && a <= c then a else if b <= c then b else c
  }

  /** The Levenshtein distance (unit-cost insertion, deletion and substitution),
      by the recurrence on the last characters of both strings: equal last
      characters cost nothing, otherwise one edit plus the cheapest of
      substitution, insertion and deletion. */
  function Lev(a: string, b: string): (d: nat)
    ensures d <= if |a| > |b| then |a| else |b|
    decreases |a| + |b|
  {
    if |a| == 0 then |b|
    else if |b| == 0 then |a|
    else
      var a', b' := a[..|a| - 1], b[..|b| - 1];
      if a[|a| - 1] == b[|b| - 1] then Lev(a', b')
      else 1 + Min3(Lev(a', b'), Lev(a, b'), Lev(a', b))
  }

  /** `levenshtein_distance(s1, s2)`: swap so that `a` is the shorter string,
      then roll a row of `|a| + 1` costs across `b`. */
  method LevenshteinDistance(s1: string, s2: string) returns (d: nat)
    ensures d == Lev(s1, s2)
  {
    var a, b := s1, s2;
    if |a| > |b| {
      a, b := b, a;
    }
    var distances: seq<nat> := seq(|a| + 1, i => i);
    var k := 0;
    while k < |b|
      invariant 0 <= k <= |b|
      invariant |distances| == |a| + 1 && distances[0] == k
      invariant forall i :: 0 <= i <= |a| ==> distances[i] == Lev(a[..i], b[..k])
    {
      distances := NextRow(a, b, k, distances);
      k := k + 1;
    }
    d := distances[|distances| - 1];
    assert a[..|a|] == a && b[..|b|] == b;
    assert d == Lev(a, b);
    if a != s1 || b != s2 {
      LevSymmetric(s2, s1);
    }
  }

  /** The inner loop of `levenshtein_distance`: from the costs of every prefix of
      `a` against `b[..k]`, build the costs against `b[..k + 1]`, cell by cell. */
  method NextRow(a: string, b: string, k: nat, distances: seq<nat>) returns (newDistances: seq<nat>)
    requires k < |b| && |distances| == |a| + 1
    requires forall i :: 0 <= i <= |a| ==> distances[i] == Lev(a[..i], b[..k])
    ensures |newDistances| == |a| + 1 && newDistances[0] == k + 1
    ensures forall i :: 0 <= i <= |a| ==> newDistances[i] == Lev(a[..i], b[..k + 1])
  {
    newDistances := [k + 1];
    var j := 0;
    while j < |a|
      invariant 0 <= j <= |a|
      invariant |newDistances| == j + 1 && newDistances[0] == k + 1
      invariant forall i :: 0 <= i <= j ==> newDistances[i] == Lev(a[..i], b[..k + 1])
    {
      LevStep(a, b, j, k);
      if a[j] == b[k] {
        newDistances := newDistances + [distances[j]];
      } else {
        newDistances := newDistances + [1 + Min3(distances[j], distances[j + 1], newDistances[|newDistances| - 1])];
      }
      j := j + 1;
    }
  }

  /** One cell of the cost row, in terms of the three cells it reads. */
  lemma LevStep(a: string, b: string, j: nat, k: nat)
    requires j < |a| && k < |b|
    ensures Lev(a[..j + 1], b[..k + 1]) ==
      if a[j] == b[k] then Lev(a[..j], b[..k])
      else 1 + Min3(Lev(a[..j], b[..k]), Lev(a[..j + 1], b[..k]), Lev(a[..j], b[..k + 1]))
  {
    assert a[..j + 1][..j] == a[..j];
    assert b[..k + 1][..k] == b[..k];
  }

  /** The distance does not depend on argument order, so the swap is harmless. */
  lemma {:induction false} LevSymmetric(a: string, b: string)
    ensures Lev(a, b) == Lev(b, a)
    decreases |a| + |b|
  {
    if |a| > 0 && |b| > 0 {
      var a', b' := a[..|a| - 1], b[..|b| - 1];
      LevSymmetric(a', b');
      LevSymmetric(a, b');
      LevSymmetric(a', b);
    }
  }

  /** A string is at distance 0 from itself. */
  lemma {:induction false} LevSelf(s: string)
    ensures Lev(s, s) == 0
  {
    if |s| > 0 {
      LevSelf(s[..|s| - 1]);
    }
  }

  /** Distance 0 holds exactly between equal strings. */
  lemma {:induction false} LevZeroIffEqual(a: string, b: string)
    ensures Lev(a, b) == 0 <==> a == b
    decreases |a| + |b|
  {
    if a == b {
      LevSelf(a);
    } else if |a| > 0 && |b| > 0 && a[|a| - 1] == b[|b| - 1] {
      var a', b' := a[..|a| - 1], b[..|b| - 1];
      LevZeroIffEqual(a', b');
      assert a == a' + [a[|a| - 1]] && b == b' + [b[|b| - 1]];
    }
  }

  /** The distance lies between the length difference and the longer length;
      in particular the distance to or from the empty string is the other length. */
  lemma {:induction false} LevBounds(a: string, b: string)
    ensures (if |a| >= |b| then |a| - |b| else |b| - |a|) <= Lev(a, b)
    ensures Lev(a, b) <= (if |a| >= |b| then |a| else |b|)
    ensures |a| == 0 ==> Lev(a, b) == |b|
    ensures |b| == 0 ==> Lev(a, b) == |a|
    decreases |a| + |b|
  {
    if |a| > 0 && |b| > 0 {
      var a', b' := a[..|a| - 1], b[..|b| - 1];
      LevBounds(a', b');
      LevBounds(a, b');
      LevBounds(a', b);
    }
  }
}
