/** Generic facts about sequences used by several algorithms. */
module Seqs {

  /** No element occurs twice. */
  predicate Distinct<T(==)>(s: seq<T>) {
    forall i, j :: 0 <= i < j < |s| ==> s[i] != s[j]
  }

  /** `s` reversed, as `Collections.reverse` leaves a list. */
  function Reverse<T>(s: seq<T>): (r: seq<T>)
    ensures |r| == |s|
    ensures forall i :: 0 <= i < |s| ==> r[i] == s[|s| - 1 - i]
  {
    if s == [] then [] else Reverse(s[1..]) + [s[0]]
  }

  /** `a` is obtained from `b` by deleting elements, keeping the order. */
  predicate IsSubsequence<T(==)>(a: seq<T>, b: seq<T>)
    decreases |b|
  {
    a == [] || (b != [] && ((a[0] == b[0] && IsSubsequence(a[1..], b[1..])) || IsSubsequence(a, b[1..])))
  }

  lemma AppendAssociative<T>(a: seq<T>, b: seq<T>, c: seq<T>)
    ensures a + (b + c) == (a + b) + c
  {
  }

  /** A subsequence keeps only elements of the original. */
  lemma {:induction false} SubsequenceElements<T>(a: seq<T>, b: seq<T>)
    requires IsSubsequence(a, b)
    ensures |a| <= |b|
    ensures forall x :: x in a ==> x in b
    decreases |b|
  {
    if a != [] {
      if a[0] == b[0] && IsSubsequence(a[1..], b[1..]) {
        SubsequenceElements(a[1..], b[1..]);
        assert forall x :: x in a ==> x == a[0] || x in a[1..];
      } else {
        SubsequenceElements(a, b[1..]);
      }
    }
  }

  /** Appending one element on both sides keeps the subsequence relation. */
  lemma {:induction false} SubsequenceAppend<T>(a: seq<T>, b: seq<T>, x: T)
    requires IsSubsequence(a, b)
    ensures IsSubsequence(a + [x], b + [x])
    decreases |b|
  {
    if a == [] {
      assert a + [x] == [x];
      SubsequenceSingleton(b, x);
    } else if a[0] == b[0] && IsSubsequence(a[1..], b[1..]) {
      SubsequenceAppend(a[1..], b[1..], x);
      assert (a + [x])[1..] == a[1..] + [x];
      assert (b + [x])[1..] == b[1..] + [x];
    } else {
      SubsequenceAppend(a, b[1..], x);
      assert (b + [x])[1..] == b[1..] + [x];
    }
  }

  /** Appending to the longer side only keeps the subsequence relation. */
  lemma {:induction false} SubsequenceExtend<T>(a: seq<T>, b: seq<T>, x: T)
    requires IsSubsequence(a, b)
    ensures IsSubsequence(a, b + [x])
    decreases |b|
  {
    if a != [] {
      assert (b + [x])[1..] == b[1..] + [x];
      if a[0] == b[0] && IsSubsequence(a[1..], b[1..]) {
        SubsequenceExtend(a[1..], b[1..], x);
      } else {
        SubsequenceExtend(a, b[1..], x);
      }
    }
  }

  lemma {:induction false} SubsequenceSingleton<T>(b: seq<T>, x: T)
    ensures IsSubsequence([x], b + [x])
    decreases |b|
  {
    if b != [] {
      assert (b + [x])[1..] == b[1..] + [x];
      SubsequenceSingleton(b[1..], x);
    } else {
      var one: seq<T> := [x];
      assert one[1..] == [];
    }
  }

  /** A subsequence of a duplicate-free sequence is duplicate-free. */
  lemma {:induction false} SubsequenceDistinct<T>(a: seq<T>, b: seq<T>)
    requires IsSubsequence(a, b) && Distinct(b)
    ensures Distinct(a)
    decreases |b|
  {
    if a != [] {
      if a[0] == b[0] && IsSubsequence(a[1..], b[1..]) {
        SubsequenceDistinct(a[1..], b[1..]);
        SubsequenceElements(a[1..], b[1..]);
        forall j | 0 < j < |a| ensures a[0] != a[j] {
          assert a[j] in a[1..];
          assert a[j] in b[1..];
        }
        forall i, j | 0 <= i < j < |a| ensures a[i] != a[j] {
          if i > 0 {
            assert a[i] == a[1..][i - 1] && a[j] == a[1..][j - 1];
          }
        }
      } else {
        SubsequenceDistinct(a, b[1..]);
      }
    }
  }

  /** The elements of a duplicate-free sequence form a set of the same size. */
  lemma {:induction false} DistinctCardinality<T>(s: seq<T>)
    requires Distinct(s)
    ensures |set x | x in s| == |s|
  {
    if s != [] {
      var t := s[..|s| - 1];
      assert Distinct(t);
      DistinctCardinality(t);
      assert (set x | x in s) == (set x | x in t) + {s[|s| - 1]} by {
        assert s == t + [s[|s| - 1]];
      }
      assert s[|s| - 1] !in t;
    }
  }

  /** Two duplicate-free sequences without a common element concatenate to a duplicate-free one. */
  lemma DistinctAppend<T>(a: seq<T>, b: seq<T>)
    requires Distinct(a) && Distinct(b) && forall x :: x in a ==> x !in b
    ensures Distinct(a + b)
  {
    forall i, j | 0 <= i < j < |a + b|
      ensures (a + b)[i] != (a + b)[j]
    {
      if i < |a| && j >= |a| {
        assert (a + b)[i] in a && (a + b)[j] == b[j - |a|];
      }
    }
  }

  /** A subset is no larger than its superset, and a proper subset is smaller. */
  lemma {:induction false} SubsetCardinality<T>(a: set<T>, b: set<T>)
    requires a <= b
    ensures |a| <= |b|
    ensures a < b ==> |a| < |b|
    decreases |a|
  {
    if a != {} {
      var x :| x in a;
      SubsetCardinality(a - {x}, b - {x});
      if a < b {
        var y :| y in b && y !in a;
        assert y in b - {x} && y !in a - {x};
      }
    }
  }
}
