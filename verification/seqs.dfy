/** Facts about sequences shared by the menu (chosen repositories) and the task filter. */
module Seqs {
  /** `a` is obtained from `b` by deleting elements, keeping the order of the rest. */
  predicate IsSubsequence<T(==)>(a: seq<T>, b: seq<T>)
    decreases |b|
  {
    a == [] || (b != [] && ((a[0] == b[0] && IsSubsequence(a[1..], b[1..])) || IsSubsequence(a, b[1..])))
  }

  /** No element occurs twice. */
  predicate Distinct<T(==)>(s: seq<T>)
  {
    forall i, j :: 0 <= i < j < |s| ==> s[i] != s[j]
  }

  /** A subsequence is no longer than the sequence and holds only its elements. */
  lemma {:induction false} SubsequenceMembers<T>(a: seq<T>, b: seq<T>)
    requires IsSubsequence(a, b)
    ensures |a| <= |b|
    ensures forall x :: x in a ==> x in b
    decreases |b|
  {
    if a == [] {
    } else if a[0] == b[0] && IsSubsequence(a[1..], b[1..]) {
      SubsequenceMembers(a[1..], b[1..]);
      assert a == [a[0]] + a[1..];
      assert b == [b[0]] + b[1..];
    } else {
      SubsequenceMembers(a, b[1..]);
      assert b == [b[0]] + b[1..];
    }
  }

  /** Every sequence is a subsequence of itself. */
  lemma {:induction false} SubsequenceReflexive<T>(s: seq<T>)
    ensures IsSubsequence(s, s)
    decreases |s|
  {
    if s != [] {
      SubsequenceReflexive(s[1..]);
    }
  }

  /**
   * Over a sequence without repetitions, a subsequence is determined by its set of
   * elements: two subsequences holding the same elements are equal, order included.
   */
  lemma {:induction false} SubsequenceDeterminedByMembers<T>(a: seq<T>, b: seq<T>, s: seq<T>)
    requires Distinct(s)
    requires IsSubsequence(a, s) && IsSubsequence(b, s)
    requires forall x :: x in a <==> x in b
    ensures a == b
    decreases |s|
  {
    if s == [] {
      SubsequenceMembers(a, s);
      SubsequenceMembers(b, s);
    } else {
      var x, rest := s[0], s[1..];
      assert Distinct(rest) by {
        forall i, j | 0 <= i < j < |rest| ensures rest[i] != rest[j] {
          assert rest[i] == s[i + 1] && rest[j] == s[j + 1];
        }
      }
      assert x !in rest by {
        forall j | 0 <= j < |rest| ensures rest[j] != x {
          assert rest[j] == s[j + 1];
        }
      }
      if x in a {
        var a' := HeadIs(a, s);
        var b' := HeadIs(b, s);
        assert a == [x] + a' && b == [x] + b';
        SubsequenceMembers(a', rest);
        SubsequenceMembers(b', rest);
        forall y ensures y in a' <==> y in b' {
          if y in a' {
            assert y in a && y != x;
            assert y in b;
          }
          if y in b' {
            assert y in b && y != x;
            assert y in a;
          }
        }
        SubsequenceDeterminedByMembers(a', b', rest);
      } else {
        assert x !in b;
        SkipHead(a, s);
        SkipHead(b, s);
        SubsequenceDeterminedByMembers(a, b, rest);
      }
    }
  }

  /** If a subsequence of `s` contains `s[0]` and `s[0]` is unique in `s`, it starts with it. */
  lemma HeadIs<T>(a: seq<T>, s: seq<T>) returns (a': seq<T>)
    requires s != [] && s[0] !in s[1..]
    requires IsSubsequence(a, s) && s[0] in a
    ensures a == [s[0]] + a' && IsSubsequence(a', s[1..])
  {
    if !(a[0] == s[0] && IsSubsequence(a[1..], s[1..])) {
      SubsequenceMembers(a, s[1..]);
      assert false;
    }
    a' := a[1..];
  }

  /** A subsequence of `s` that does not contain `s[0]` is a subsequence of `s[1..]`. */
  lemma SkipHead<T>(a: seq<T>, s: seq<T>)
    requires s != [] && IsSubsequence(a, s) && s[0] !in a
    ensures IsSubsequence(a, s[1..])
  {
    if a != [] {
      assert a[0] != s[0];
    }
  }
}
