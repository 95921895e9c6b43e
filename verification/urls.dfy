/** URL ordering used inside a namespace.
    The directory compares URLs with std::string::compare: character by
    character, and when one URL is a proper prefix of the other the shorter
    one sorts first. */
module Urls {

  /** Three-way comparison with the sign convention of std::string::compare,
      normalised to -1, 0 or 1. */
  function Compare(a: string, b: string): (c: int)
    ensures -1 <= c <= 1
    ensures c == 0 <==> a == b
  {
    CompareFrom(a, b, 0)
  }

  /** The comparison of `a` and `b` from position `i` on. */
  function CompareFrom(a: string, b: string, i: nat): (c: int)
    requires i <= |a| && i <= |b|
    ensures -1 <= c <= 1
    ensures c == 0 <==> a[i..] == b[i..]
    decreases |a| - i
  {
    if i == |a| then (if i == |b| then 0 else -1)
    else if i == |b| then 1
    else if a[i] < b[i] then -1
    else if a[i] > b[i] then 1
    else
      assert a[i..] == [a[i]] + a[i + 1..] && b[i..] == [b[i]] + b[i + 1..];
      CompareFrom(a, b, i + 1)
  }

  /** Strict URL order. */
  predicate Less(a: string, b: string) {
    Compare(a, b) < 0
  }

  /** Independent statement of lexicographic order: `a` is a proper prefix
      of `b`, or they first differ at a position where `a` is smaller. */
  ghost predicate LexLess(a: string, b: string) {
    || a < b
    || exists k :: 0 <= k < |a| && k < |b| && a[..k] == b[..k] && a[k] < b[k]
  }

  /** Swapping the arguments flips the sign of the comparison. */
  lemma CompareAntisymmetric(a: string, b: string)
    ensures Compare(b, a) == -Compare(a, b)
  {
    CompareFromAntisymmetric(a, b, 0);
  }

  lemma {:induction false} CompareFromAntisymmetric(a: string, b: string, i: nat)
    requires i <= |a| && i <= |b|
    ensures CompareFrom(b, a, i) == -CompareFrom(a, b, i)
    decreases |a| - i
  {
    if i < |a| && i < |b| && a[i] == b[i] {
      CompareFromAntisymmetric(a, b, i + 1);
    }
  }

  /** The URL order is transitive. */
  lemma LessTransitive(a: string, b: string, c: string)
    requires Less(a, b) && Less(b, c)
    ensures Less(a, c)
  {
    CompareFromTransitive(a, b, c, 0);
  }

  lemma {:induction false} CompareFromTransitive(a: string, b: string, c: string, i: nat)
    requires i <= |a| && i <= |b| && i <= |c|
    requires CompareFrom(a, b, i) < 0 && CompareFrom(b, c, i) < 0
    ensures CompareFrom(a, c, i) < 0
    decreases |a| - i
  {
    if i < |a| && i < |b| && i < |c| && a[i] == b[i] && b[i] == c[i] {
      CompareFromTransitive(a, b, c, i + 1);
    }
  }

  /** The comparison agrees with the independent definition of lexicographic
      order, in both directions. */
  lemma LessIsLexicographic(a: string, b: string)
    ensures Less(a, b) <==> LexLess(a, b)
  {
    CompareFromIsLexicographic(a, b, 0);
  }

  /** Once `a` and `b` agree on their first `i` characters, the comparison
      from `i` on decides lexicographic order. */
  lemma {:induction false} CompareFromIsLexicographic(a: string, b: string, i: nat)
    requires i <= |a| && i <= |b| && a[..i] == b[..i]
    ensures CompareFrom(a, b, i) < 0 <==> LexLess(a, b)
    decreases |a| - i
  {
    assert forall k :: 0 <= k < i ==> a[k] == a[..i][k] == b[..i][k] == b[k];
    if i == |a| {
      assert a == b[..i];
    } else if i == |b| {
      assert b == a[..i];
    } else if a[i] < b[i] {
      assert LexLess(a, b);
    } else if a[i] > b[i] {
      forall k | i < k <= |a| && k <= |b|
        ensures a[..k] != b[..k]
      {
        assert a[..k][i] == a[i] && b[..k][i] == b[i];
      }
      assert !(a < b) by {
        if |a| < |b| {
          assert a[..|a|] == a;
        }
      }
    } else {
      assert a[..i + 1] == a[..i] + [a[i]];
      assert b[..i + 1] == b[..i] + [b[i]];
      CompareFromIsLexicographic(a, b, i + 1);
    }
  }
}
